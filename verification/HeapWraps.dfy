/**
 What becomes of `malloc` when one of its sums of 32 bits wraps: nbytes and the header, that and the
 header of the new region, or the new break. Adjacency is by byte addresses here.
 */
module HeapWraps {
  import opened Options
  import opened Tilings
  import opened HeapModel
  import opened MallocProofs
  import opened SearchLoop
  import opened HeapMisfire

  /** The loop ends as a search does, or sbrk has lowered the break and still handed out its old value. */
  datatype End = Ended(s: Search) | CameBack(h: Heap)

  /** The loop of `malloc` from position k on, for any number of bytes. */
  ghost function Loop(h: Heap, k: nat, alloc: nat, replies: seq<bool>, asked: nat): End
    requires Inv(h) && k < |h.list|
    decreases |replies|, Steps(|h.list|, k, h.rover) + 1
  {
    if Fits(h, alloc, k) then Ended(Search(h, Some(k), asked))
    else if k != h.rover then StepsShift(|h.list|, k, h.rover); Loop(h, NextIndex(|h.list|, k), alloc, replies, asked)
    else AtRover(h, alloc, replies, asked)
  }

  /** Back at the rover sbrk is asked. */
  ghost function AtRover(h: Heap, alloc: nat, replies: seq<bool>, asked: nat): End
    requires Inv(h)
    decreases |replies|, 0
  {
    if !Granted(h, alloc, Reply(replies)) then Ended(Search(h, None, asked + 1))
    else if ComesBack(h, alloc) then CameBack(Extend(h, Request(alloc)))
    else
      GrantedFits(h, alloc, Reply(replies)); BytewiseGrowth(h, alloc);
      Loop(Grown(h, alloc, false), 0, alloc, Rest(replies), asked + 1)
  }

  /** The block at position k serves the request; at position 0 that is the static header itself. */
  ghost function ServedAt(h: Heap, k: nat, alloc: nat): (r: (Heap, nat))
    requires k < |h.list| && Fits(h, alloc, k)
  {
    if k > 0 then (Serve(h, k, alloc), Served(h, k, alloc))
    else (h.(list := if |h.list| == 1 then h.list else h.list[1..], live := h.live + {h.list[0]}), h.list[0])
  }

  /**
   What a call promises: a new block with room for nbytes in a heap in good order, or NULL with the
   blocks in use untouched, after at most two requests to sbrk.
   */
  ghost predicate Kept(h: Heap, nbytes: nat, alloc: nat, e: End) {
    match e
    case CameBack(r) => Inv(r)
    case Ended(Search(g, None, asked)) => Inv(g) && g.live == h.live && asked <= 2
    case Ended(Search(g, Some(k), asked)) =>
      && asked <= 2 && k < |g.list| && Fits(g, alloc, k)
      && ServedWell(h, nbytes, ServedAt(g, k, alloc).0, ServedAt(g, k, alloc).1)
  }

  ghost predicate ServedWell(h: Heap, nbytes: nat, r: Heap, m: nat) {
    Inv(r) && m !in h.live && r.live == h.live + {m} && m in r.size && r.size[m] >= nbytes + HEADER
  }

  /** The call as a whole, from the header behind the rover on, with sbrk not yet asked. */
  ghost predicate CallKept(h: Heap, nbytes: nat, replies: seq<bool>)
    requires Inv(h)
  {
    CountedKept(h, nbytes, replies, 0)
  }

  ghost predicate CountedKept(h: Heap, nbytes: nat, replies: seq<bool>, asked: nat)
    requires Inv(h)
  {
    Kept(h, nbytes, Allocation(nbytes), Loop(h, NextIndex(|h.list|, h.rover), Allocation(nbytes), replies, asked))
  }

  // ----- Where nothing wraps

  lemma {:induction false} LoopIsHunt(h: Heap, k: nat, alloc: nat, replies: seq<bool>, asked: nat)
    requires Inv(h) && SafeFrom(h, k, alloc, replies, false)
    ensures Loop(h, k, alloc, replies, asked) == Ended(Hunt(h, k, alloc, replies, false, asked))
    decreases |replies|, Steps(|h.list|, k, h.rover)
  {
    if !Fits(h, alloc, k) {
      if k != h.rover {
        StepsShift(|h.list|, k, h.rover);
        LoopIsHunt(h, NextIndex(|h.list|, k), alloc, replies, asked);
      } else if Granted(h, alloc, Reply(replies)) {
        LoopIsHunt(Grown(h, alloc, false), 0, alloc, Rest(replies), asked + 1);
      }
    }
  }

  lemma ServedIsKept(h: Heap, nbytes: nat, g: Heap, k: nat)
    requires Inv(g) && g.live == h.live && 0 < k < |g.list| && Fits(g, nbytes + HEADER, k)
    requires g.size[g.list[k]] == nbytes + HEADER || nbytes + 2 * HEADER <= g.size[g.list[k]]
    ensures ServedWell(h, nbytes, ServedAt(g, k, nbytes + HEADER).0, ServedAt(g, k, nbytes + HEADER).1)
  {
    hide Tiling;
    ServeKeepsTilingIff(g, k, nbytes + HEADER);
    ServeHandsOutNewBlock(g, k, nbytes + HEADER);
  }

  lemma NoSplinter(h: Heap, k: nat, alloc: nat)
    requires Inv(h) && Multiples(h) && alloc % HEADER == 0 && 0 < k < |h.list| && Fits(h, alloc, k)
    ensures h.size[h.list[k]] == alloc || alloc + HEADER <= h.size[h.list[k]]
  {
    NextIsFree(h, k);
    assert h.list[k] in Blocks(h);
  }

  lemma SearchIsKept(h: Heap, nbytes: nat, first: bool, second: bool)
    requires Inv(h) && Multiples(h) && nbytes % HEADER == 0 && SafeSearch(h, nbytes + HEADER, first, second, false)
    ensures Kept(h, nbytes, nbytes + HEADER, Ended(Searched(h, nbytes + HEADER, first, second, false)))
  {
    hide Inv, SafeGrowths, ServedWell, ServedAt;
    var alloc := nbytes + HEADER;
    var s := Searched(h, alloc, first, second, false);
    SearchEndsWell(h, alloc, first, second, false);
    if s.at.Some? {
      if s.asked == 0 { NoSplinter(h, s.at.value, alloc); }
      ServedIsKept(h, nbytes, s.heap, s.at.value);
    }
  }

  lemma {:induction false} SaneIsKept(h: Heap, nbytes: nat, replies: seq<bool>, asked: nat)
    requires Inv(h) && Multiples(h) && nbytes % HEADER == 0 && nbytes + 2 * HEADER < WRAP && asked == 0
    requires ClearWith(h, nbytes + HEADER, Reply(replies), Reply(Rest(replies)))
    ensures Kept(h, nbytes, nbytes + HEADER, Loop(h, NextIndex(|h.list|, h.rover), nbytes + HEADER, replies, asked))
  {
    var alloc := nbytes + HEADER;
    BytewiseSearchIsSafe(h, alloc, Reply(replies), Reply(Rest(replies)));
    HuntCounted(h, alloc, replies, false, asked);
    LoopIsHunt(h, NextIndex(|h.list|, h.rover), alloc, replies, asked);
    SearchIsKept(h, nbytes, Reply(replies), Reply(Rest(replies)));
  }

  // ----- Where nothing fits

  lemma {:induction false} LoopMisses(h: Heap, k: nat, alloc: nat, replies: seq<bool>, asked: nat)
    requires Inv(h) && k < |h.list|
    requires forall i :: 0 <= i < |h.list| && Steps(|h.list|, k, i) <= Steps(|h.list|, k, h.rover) ==>
      !Fits(h, alloc, i)
    ensures Loop(h, k, alloc, replies, asked) == AtRover(h, alloc, replies, asked)
    decreases Steps(|h.list|, k, h.rover)
  {
    assert Steps(|h.list|, k, k) == 0;
    if k != h.rover {
      StepsShift(|h.list|, k, h.rover);
      var n, k' := |h.list|, NextIndex(|h.list|, k);
      forall i | 0 <= i < n && Steps(n, k', i) <= Steps(n, k', h.rover) ensures !Fits(h, alloc, i) {
        if i != k { StepsShift(n, k, i); }
      }
      LoopMisses(h, k', alloc, replies, asked);
    }
  }

  lemma NothingFitsAtAll(h: Heap, k: nat, alloc: nat, replies: seq<bool>, asked: nat)
    requires Inv(h) && k < |h.list| && NoneFits(h, alloc)
    ensures Loop(h, k, alloc, replies, asked) == AtRover(h, alloc, replies, asked)
  {
    LoopMisses(h, k, alloc, replies, asked);
  }

  lemma NothingFitsFrom(h: Heap, alloc: nat, replies: seq<bool>, asked: nat)
    requires Inv(h) && NoneFits(h, alloc)
    ensures Loop(h, NextIndex(|h.list|, h.rover), alloc, replies, asked) == AtRover(h, alloc, replies, asked)
  {
    NothingFitsAtAll(h, NextIndex(|h.list|, h.rover), alloc, replies, asked);
  }

  /** A growth that fits: the loop starts again behind the new block. */
  lemma AtRoverGrows(h: Heap, alloc: nat, replies: seq<bool>, asked: nat)
    requires CanGrow(h, alloc, false) && Granted(h, alloc, Reply(replies))
    ensures AtRover(h, alloc, replies, asked) == Loop(Grown(h, alloc, false), 0, alloc, Rest(replies), asked + 1)
  {
    hide Loop;
  }

  /** No block is as large as a request that leaves no room for another header. */
  lemma TooBig(h: Heap, alloc: nat)
    requires Inv(h) && WRAP <= alloc + HEADER
    ensures NoneFits(h, alloc)
  {
    forall k | 0 <= k < |h.list| ensures !Fits(h, alloc, k) {
      NextIsFree(h, k);
      assert k > 0 ==> h.list[k] in Blocks(h);
    }
  }

  // ----- The second sum: the request to sbrk

  /** One request of 1024 bytes after the other, none of which helps. */
  lemma HugeAsksAgain(h: Heap, alloc: nat, replies: seq<bool>, asked: nat)
    requires Inv(h) && alloc < WRAP <= alloc + HEADER && MIN_REQUEST <= h.lo
    ensures if Reply(replies) && h.brk + MIN_REQUEST < WRAP
      then CanGrow(h, alloc, false) && Grown(h, alloc, false).brk == h.brk + MIN_REQUEST
        && Grown(h, alloc, false).lo == h.lo
        && AtRover(h, alloc, replies, asked) == AtRover(Grown(h, alloc, false), alloc, Rest(replies), asked + 1)
      else AtRover(h, alloc, replies, asked) == Ended(Search(h, None, asked + 1))
  {
    hide Loop, Grown, SoundGrowth;
    assert Request(alloc) == MIN_REQUEST;
    if Granted(h, alloc, Reply(replies)) {
      GrantedFits(h, alloc, Reply(replies));
      BytewiseGrowth(h, alloc);
      AtRoverGrows(h, alloc, replies, asked);
      var g := Grown(h, alloc, false);
      TooBig(g, alloc);
      NothingFitsAtAll(g, 0, alloc, Rest(replies), asked + 1);
    }
  }

  lemma HugeIsKeptAtTheTop(h: Heap, nbytes: nat, alloc: nat, replies: seq<bool>, asked: nat)
    requires Inv(h) && alloc < WRAP <= alloc + HEADER && MIN_REQUEST <= h.lo && WRAP <= h.brk + 2 * MIN_REQUEST
    requires asked == 0
    ensures Kept(h, nbytes, alloc, Loop(h, NextIndex(|h.list|, h.rover), alloc, replies, asked))
  {
    TooBig(h, alloc);
    NothingFitsAtAll(h, NextIndex(|h.list|, h.rover), alloc, replies, asked);
    HugeAsksAgain(h, alloc, replies, asked);
    if Reply(replies) && h.brk + MIN_REQUEST < WRAP {
      HugeAsksAgain(Grown(h, alloc, false), alloc, Rest(replies), asked + 1);
    }
  }

  /** Every grant is followed by another request, so that the answers are used up to the first refusal. */
  lemma {:induction false} HugeAsksOn(h: Heap, alloc: nat, replies: seq<bool>, asked: nat)
    requires Inv(h) && alloc < WRAP <= alloc + HEADER && MIN_REQUEST <= h.lo
    ensures var e := AtRover(h, alloc, replies, asked);
      && e.Ended? && e.s.at == None && e.s.asked > asked
      && ((forall i :: 0 <= i < |replies| ==> replies[i]) && h.brk + MIN_REQUEST * |replies| < WRAP ==>
        e.s.asked == asked + |replies| + 1)
    decreases |replies|
  {
    hide AtRover, Grown, Inv;
    HugeAsksAgain(h, alloc, replies, asked);
    if Reply(replies) && h.brk + MIN_REQUEST < WRAP {
      HugeAsksOn(Grown(h, alloc, false), alloc, Rest(replies), asked + 1);
    }
  }

  lemma HugeAsksThrice(h: Heap, nbytes: nat, alloc: nat, replies: seq<bool>, asked: nat)
    requires Inv(h) && alloc < WRAP <= alloc + HEADER && MIN_REQUEST <= h.lo && h.brk + 2 * MIN_REQUEST < WRAP
    requires Reply(replies) && Reply(Rest(replies)) && asked == 0
    ensures !Kept(h, nbytes, alloc, Loop(h, NextIndex(|h.list|, h.rover), alloc, replies, asked))
  {
    hide Loop, AtRover, Grown, Inv;
    TooBig(h, alloc);
    NothingFitsFrom(h, alloc, replies, asked);
    HugeAsksAgain(h, alloc, replies, asked);
    var g := Grown(h, alloc, false);
    HugeAsksAgain(g, alloc, Rest(replies), asked + 1);
    HugeAsksOn(Grown(g, alloc, false), alloc, Rest(Rest(replies)), asked + 2);
  }

  // ----- The first sum: nbytes and the header

  /** With a sum of 0 every header fits, and whatever stands behind the free block is handed out with size 0. */
  lemma EmptySumIsBroken(h: Heap, nbytes: nat, replies: seq<bool>, asked: nat)
    requires Inv(h)
    ensures !Kept(h, nbytes, 0, Loop(h, NextIndex(|h.list|, h.rover), 0, replies, asked))
  {
    var k := NextIndex(|h.list|, h.rover);
    InSizes(h, k);
    var (r, m) := ServedAt(h, k, 0);
    assert m in r.live && m in Blocks(r);
  }

  // ----- The third sum: the break

  lemma CameBackIsBroken(h: Heap, bytes: nat)
    requires Inv(h) && bytes < WRAP <= h.brk + bytes
    ensures !Inv(Extend(h, bytes))
  {
    assert h.brk in Blocks(Extend(h, bytes));
  }

  lemma FirstComesBack(h: Heap, nbytes: nat, alloc: nat, replies: seq<bool>, asked: nat)
    requires Inv(h) && NoneFits(h, alloc) && ComesBack(h, alloc) && Reply(replies)
    ensures !Kept(h, nbytes, alloc, Loop(h, NextIndex(|h.list|, h.rover), alloc, replies, asked))
  {
    hide Tiling;
    NothingFitsFrom(h, alloc, replies, asked);
    CameBackIsBroken(h, Request(alloc));
  }

  lemma SecondComesBack(h: Heap, nbytes: nat, alloc: nat, asked: nat)
    requires Inv(h) && NoneFits(h, alloc) && Sane(alloc) && h.brk + Request(alloc) < WRAP && !TopIsFree(h)
    requires ComesBack(h.(brk := h.brk + Request(alloc)), alloc)
    ensures !Kept(h, nbytes, alloc, Loop(h, NextIndex(|h.list|, h.rover), alloc, [true, true], asked))
  {
    hide Loop, AtRover;
    BytewiseGrowth(h, alloc);
    GrownBreak(h, alloc);
    SecondRound(h, alloc, asked);
    SecondIsAsked(h, Grown(h, alloc, false), nbytes, alloc, asked);
  }

  lemma SecondRound(h: Heap, alloc: nat, asked: nat)
    requires CanGrow(h, alloc, false) && NoneFits(h, alloc) && Sane(alloc) && !TopIsFree(h)
    ensures Loop(h, NextIndex(|h.list|, h.rover), alloc, [true, true], asked) ==
      AtRover(Grown(h, alloc, false), alloc, [true], asked + 1)
  {
    hide Loop, AtRover, GrownFrom;
    assert h.rover < |h.list| && h.lo <= h.brk;
    hide Loop, AtRover, GrownFrom, TopIsFree, Tiling;
    NothingFitsAtAll(h, NextIndex(|h.list|, h.rover), alloc, [true, true], asked);
    assert Rest([true, true]) == [true];
    AtRoverGrows(h, alloc, [true, true], asked);
    SecondMisses(h, alloc, asked);
  }

  lemma GrownBreak(h: Heap, alloc: nat)
    requires CanGrow(h, alloc, false)
    ensures var g := Grown(h, alloc, false); g.lo == h.lo && g.brk == h.brk + Request(alloc) < WRAP && h.lo <= h.brk
  {
  }

  lemma SecondMisses(h: Heap, alloc: nat, asked: nat)
    requires CanGrow(h, alloc, false) && NoneFits(h, alloc) && Sane(alloc) && !TopIsFree(h)
    ensures var g := Grown(h, alloc, false);
      Loop(g, 0, alloc, [true], asked + 1) == AtRover(g, alloc, [true], asked + 1)
  {
    hide Tiling, GrownFrom;
    BytewiseGrowthMergesIff(h, alloc);
    AfterOnce(h, alloc, false);
    LoopMisses(Grown(h, alloc, false), 0, alloc, [true], asked + 1);
  }

  lemma SecondIsAsked(h: Heap, g: Heap, nbytes: nat, alloc: nat, asked: nat)
    requires Inv(g) && g.lo == h.lo && g.brk == h.brk + Request(alloc) < WRAP && ComesBack(h.(brk := g.brk), alloc)
    ensures !Kept(h, nbytes, alloc, AtRover(g, alloc, [true], asked + 1))
  {
    CameBackIsBroken(g, Request(alloc));
  }

  // ----- All sums together

  /** What a caller would have to see to before the call. */
  ghost predicate Guarded(h: Heap, nbytes: nat) {
    && nbytes + HEADER < WRAP
    && if nbytes + 2 * HEADER < WRAP then Clear(h, nbytes + HEADER) else WRAP <= h.brk + 2 * MIN_REQUEST
  }

  /**
   Whatever sbrk answers, also if it grants a lower break, a call keeps its promise if and only if its
   sums are guarded. (In the last case of the guard every growth fails, so that there are still no
   more than two requests.)
   */
  lemma KeptWithAnySbrkIff(h: Heap, nbytes: nat)
    requires Inv(h) && Multiples(h) && nbytes % HEADER == 0 && nbytes < WRAP && MIN_REQUEST <= h.lo
    ensures (forall replies :: CallKept(h, nbytes, replies)) <==> Guarded(h, nbytes)
  {
    hide CountedKept;
    if Guarded(h, nbytes) {
      forall replies ensures CallKept(h, nbytes, replies) { GuardedIsKept(h, nbytes, replies, 0); }
    } else {
      var replies := UnguardedIsBroken(h, nbytes, 0);
      assert !CallKept(h, nbytes, replies);
    }
  }

  lemma GuardedIsKept(h: Heap, nbytes: nat, replies: seq<bool>, asked: nat)
    requires Inv(h) && Multiples(h) && nbytes % HEADER == 0 && MIN_REQUEST <= h.lo && Guarded(h, nbytes) && asked == 0
    ensures CountedKept(h, nbytes, replies, asked)
  {
    if nbytes + 2 * HEADER < WRAP {
      SaneIsKept(h, nbytes, replies, asked);
    } else {
      HugeIsKeptAtTheTop(h, nbytes, Allocation(nbytes), replies, asked);
    }
  }

  lemma UnguardedIsBroken(h: Heap, nbytes: nat, asked: nat) returns (replies: seq<bool>)
    requires Inv(h) && nbytes % HEADER == 0 && nbytes < WRAP && MIN_REQUEST <= h.lo && !Guarded(h, nbytes) && asked == 0
    ensures !CountedKept(h, nbytes, replies, asked)
  {
    hide Loop, AtRover, Inv, Kept;
    var alloc := Allocation(nbytes);
    if WRAP <= nbytes + HEADER {
      replies := [];
      EmptySumIsBroken(h, nbytes, replies, asked);
    } else if WRAP <= nbytes + 2 * HEADER {
      replies := [true, true];
      HugeAsksThrice(h, nbytes, alloc, replies, asked);
    } else if ComesBack(h, alloc) {
      replies := [true];
      FirstComesBack(h, nbytes, alloc, replies, asked);
    } else {
      replies := [true, true];
      SecondComesBack(h, nbytes, alloc, asked);
    }
  }

  // ----- Inputs

  /**
   After malloc(48) a call of malloc(2^32 - 8) looks for 0 bytes, and hands out the block that
   malloc(48) gave away, with its size set to 0.
   */
  lemma WrappedSumHitsLiveBlock(replies: seq<bool>, asked: nat)
    ensures Inv(First()) && Allocation(0xffff_fff8) == 0 && Fits(First(), 0, 1)
    ensures Loop(First(), 1, 0, replies, asked) == Ended(Search(First(), Some(1), asked))
    ensures var (r, m) := ServedAt(First(), 1, 0); m in First().live && First().size[m] == 56 && r.size[m] == 0
  {
    hide Inv;
    InOrder();
  }

  /** And malloc(2^32 - 16) asks for 1024 bytes as long as sbrk has any. */
  lemma WrappedRequestAsksOn(replies: seq<bool>, asked: nat)
    requires (forall i :: 0 <= i < |replies| ==> replies[i]) && First().brk + MIN_REQUEST * |replies| < WRAP
    ensures Inv(First()) && Allocation(0xffff_fff0) == 0xffff_fff8 && Request(0xffff_fff8) == MIN_REQUEST
    ensures var e := Loop(First(), NextIndex(|First().list|, First().rover), 0xffff_fff8, replies, asked);
      e.Ended? && e.s.at == None && e.s.asked == asked + |replies| + 1
  {
    InOrder();
    FirstAsksOn(First(), 0xffff_fff8, replies, asked);
  }

  lemma FirstAsksOn(h: Heap, alloc: nat, replies: seq<bool>, asked: nat)
    requires Inv(h) && alloc < WRAP <= alloc + HEADER && MIN_REQUEST <= h.lo
    requires (forall i :: 0 <= i < |replies| ==> replies[i]) && h.brk + MIN_REQUEST * |replies| < WRAP
    ensures var e := Loop(h, NextIndex(|h.list|, h.rover), alloc, replies, asked);
      e.Ended? && e.s.at == None && e.s.asked == asked + |replies| + 1
  {
    hide Loop, AtRover, Inv;
    TooBig(h, alloc);
    NothingFitsFrom(h, alloc, replies, asked);
    HugeAsksOn(h, alloc, replies, asked);
  }

  /**
   After malloc(48), malloc(2^32 - 80) asks for 2^32 - 64 bytes, which move the break 64 bytes down, into
   the last block. An sbrk that grants this breaks the promise.
   */
  lemma WrappedBreakOverlaps(replies: seq<bool>)
    requires Reply(replies)
    ensures Inv(First()) && NoneFits(First(), 0xffff_ffb8) && ComesBack(First(), 0xffff_ffb8)
    ensures Extend(First(), Request(0xffff_ffb8)).brk == First().brk - 64
    ensures !CallKept(First(), 0xffff_ffb0, replies)
  {
    hide CallKept, Inv;
    InOrder();
    ComingBackBreaks(First(), 0xffff_ffb0, 0xffff_ffb8, replies);
  }

  lemma ComingBackBreaks(h: Heap, nbytes: nat, alloc: nat, replies: seq<bool>)
    requires Inv(h) && alloc == nbytes + HEADER < WRAP && NoneFits(h, alloc) && ComesBack(h, alloc) && Reply(replies)
    ensures !CallKept(h, nbytes, replies)
  {
    hide Loop, Inv;
    FirstComesBack(h, nbytes, alloc, replies, 0);
  }
}
