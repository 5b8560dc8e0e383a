/** Sets of byte blocks that lie end to end: each block is a header address with a size. */
module Tilings {

  const HEADER: nat := 8

  /** The blocks lie in [lo, end), none shorter than a header, no two overlap, and no gap is left. */
  ghost predicate Tiling(blocks: set<nat>, size: map<nat, nat>, lo: nat, end: nat) {
    && Packed(blocks, size, lo, end)
    && forall a {:trigger Followed(blocks, size, end, a)} :: a in blocks ==> Followed(blocks, size, end, a)
  }

  ghost predicate Packed(blocks: set<nat>, size: map<nat, nat>, lo: nat, end: nat) {
    && lo <= end
    && (lo == end || lo in blocks)
    && (forall a :: a in blocks ==> a in size && lo <= a && HEADER <= size[a] && a + size[a] <= end)
    && (forall a, b :: a in blocks && b in blocks && a < b ==> a + size[a] <= b)
  }

  /** The block at a ends where another one starts, or at the end of the range. */
  ghost predicate Followed(blocks: set<nat>, size: map<nat, nat>, end: nat, a: nat) {
    a in size && (a + size[a] == end || a + size[a] in blocks)
  }

  ghost predicate Covers(blocks: set<nat>, size: map<nat, nat>, a: nat, x: nat) {
    a in blocks && a in size && a <= x < a + size[a]
  }

  /** A tiling is what it says: every byte of the range is in exactly one block, other bytes in none. */
  lemma {:induction false} EveryByteOnce(blocks: set<nat>, size: map<nat, nat>, lo: nat, end: nat, x: nat)
    requires Tiling(blocks, size, lo, end)
    ensures lo <= x < end <==> exists a :: Covers(blocks, size, a, x)
    ensures forall a, b :: Covers(blocks, size, a, x) && Covers(blocks, size, b, x) ==> a == b
  {
    if lo <= x < end {
      var a: nat := lo;
      while a + size[a] <= x
        invariant a in blocks && a <= x
        decreases x - a
      {
        assert Followed(blocks, size, end, a);
        a := a + size[a];
      }
      assert Covers(blocks, size, a, x);
    }
  }

  lemma JoinFollowed(blocks: set<nat>, size: map<nat, nat>, lo: nat, end: nat, a: nat, b: nat, x: nat)
    requires Tiling(blocks, size, lo, end) && a in blocks && b in blocks && a + size[a] == b && x in blocks - {b}
    ensures Followed(blocks - {b}, size[a := size[a] + size[b]], end, x)
  {
    assert Followed(blocks, size, end, b);
    assert Followed(blocks, size, end, x);
  }

  lemma JoinPacked(blocks: set<nat>, size: map<nat, nat>, lo: nat, end: nat, a: nat, b: nat)
    requires Packed(blocks, size, lo, end) && a in blocks && b in blocks && a + size[a] == b
    ensures Packed(blocks - {b}, size[a := size[a] + size[b]], lo, end)
  {
  }

  lemma Join(blocks: set<nat>, size: map<nat, nat>, lo: nat, end: nat, a: nat, b: nat)
    requires Tiling(blocks, size, lo, end) && a in blocks && b in blocks && a + size[a] == b
    ensures Tiling(blocks - {b}, size[a := size[a] + size[b]], lo, end)
  {
    JoinPacked(blocks, size, lo, end, a, b);
    forall x: nat | x in blocks - {b} ensures Followed(blocks - {b}, size[a := size[a] + size[b]], end, x) {
      JoinFollowed(blocks, size, lo, end, a, b, x);
    }
  }

  lemma SplitFollowed(blocks: set<nat>, size: map<nat, nat>, lo: nat, end: nat, a: nat, rest: nat, x: nat)
    requires Tiling(blocks, size, lo, end) && a in blocks && HEADER <= rest && rest + HEADER <= size[a]
    requires a + rest !in blocks && x in blocks + {a + rest}
    ensures Followed(blocks + {a + rest}, size[a := rest][a + rest := size[a] - rest], end, x)
  {
    assert Followed(blocks, size, end, if x == a + rest then a else x);
  }

  lemma SplitPacked(blocks: set<nat>, size: map<nat, nat>, lo: nat, end: nat, a: nat, rest: nat)
    requires Packed(blocks, size, lo, end) && a in blocks && HEADER <= rest && rest + HEADER <= size[a]
    ensures a + rest !in blocks
    ensures Packed(blocks + {a + rest}, size[a := rest][a + rest := size[a] - rest], lo, end)
  {
  }

  lemma Split(blocks: set<nat>, size: map<nat, nat>, lo: nat, end: nat, a: nat, rest: nat)
    requires Tiling(blocks, size, lo, end) && a in blocks && HEADER <= rest && rest + HEADER <= size[a]
    ensures a + rest !in blocks
    ensures Tiling(blocks + {a + rest}, size[a := rest][a + rest := size[a] - rest], lo, end)
  {
    SplitPacked(blocks, size, lo, end, a, rest);
    var more := blocks + {a + rest};
    forall x: nat | x in more ensures Followed(more, size[a := rest][a + rest := size[a] - rest], end, x) {
      SplitFollowed(blocks, size, lo, end, a, rest, x);
    }
  }

  lemma Append(blocks: set<nat>, size: map<nat, nat>, lo: nat, end: nat, bytes: nat)
    requires Tiling(blocks, size, lo, end) && HEADER <= bytes
    ensures end !in blocks
    ensures Tiling(blocks + {end}, size[end := bytes], lo, end + bytes)
  {
    forall x: nat | x in blocks + {end} ensures Followed(blocks + {end}, size[end := bytes], end + bytes, x) {
      assert x != end ==> Followed(blocks, size, end, x);
    }
  }

  /** Only the sizes of the blocks matter. */
  lemma JoinBoth(blocks: set<nat>, size: map<nat, nat>, lo: nat, end: nat, head: nat, m: nat, next: nat)
    requires Tiling(blocks, size, lo, end) && m in blocks
    requires next in blocks && m + size[m] == next
    requires head in blocks && head + size[head] == m
    ensures var merged := size[m] + size[next];
      Tiling(blocks - {next} - {m}, size[m := merged][head := size[head] + merged], lo, end)
  {
    var merged := size[m] + size[next];
    Join(blocks, size, lo, end, m, next);
    Join(blocks - {next}, size[m := merged], lo, end, head, m);
  }

  /** The sizes after m has been merged with `next` above it, with `head` below it, or with both. */
  function MergedSizes(size: map<nat, nat>, head: nat, m: nat, next: nat, up: bool, down: bool): map<nat, nat>
    requires m in size && (up ==> next in size) && (down ==> head in size)
  {
    var merged := size[m] + if up then size[next] else 0;
    if down then size[m := merged][head := size[head] + merged] else size[m := merged]
  }

  ghost function MergedBlocks(blocks: set<nat>, m: nat, next: nat, up: bool, down: bool): set<nat> {
    blocks - (if up then {next} else {}) - (if down then {m} else {})
  }

  lemma TouchingMergeTiles(blocks: set<nat>, size: map<nat, nat>, lo: nat, end: nat, head: nat, m: nat, next: nat,
      up: bool, down: bool)
    requires Tiling(blocks, size, lo, end) && m in blocks
    requires up ==> next in blocks && m + size[m] == next
    requires down ==> head in blocks && head + size[head] == m
    ensures Tiling(MergedBlocks(blocks, m, next, up, down), MergedSizes(size, head, m, next, up, down), lo, end)
  {
    var result := MergedBlocks(blocks, m, next, up, down);
    if up && down {
      JoinBoth(blocks, size, lo, end, head, m, next);
    } else if up {
      Join(blocks, size, lo, end, m, next);
      assert result == blocks - {next};
    } else {
      assert size[m := size[m]] == size;
      if down { Join(blocks, size, lo, end, head, m); }
      assert result == if down then blocks - {m} else blocks;
    }
  }

  /** A block that reaches over the start of another one breaks the tiling. */
  lemma Overlap(blocks: set<nat>, size: map<nat, nat>, lo: nat, end: nat, a: nat, b: nat)
    requires a in blocks && b in blocks && a < b && a in size && b < a + size[a]
    ensures !Tiling(blocks, size, lo, end)
  {
  }

  lemma DistantMergeOverlaps(blocks: set<nat>, size: map<nat, nat>, lo: nat, end: nat, head: nat, m: nat, next: nat,
      up: bool, down: bool)
    requires Tiling(blocks, size, lo, end) && m in blocks
    requires up ==> next in blocks && m < next
    requires down ==> head in blocks && head < m
    requires (up && m + size[m] != next) || (down && head + size[head] != m)
    ensures !Tiling(MergedBlocks(blocks, m, next, up, down), MergedSizes(size, head, m, next, up, down), lo, end)
  {
    // the block that follows `low` is still there and what `low` was merged into reaches over it
    var low := if down && head + size[head] != m then head else m;
    assert Followed(blocks, size, end, low);
    Overlap(MergedBlocks(blocks, m, next, up, down), MergedSizes(size, head, m, next, up, down), lo, end,
            if down then head else m, low + size[low]);
  }

  lemma MergeTilesIff(blocks: set<nat>, size: map<nat, nat>, lo: nat, end: nat, head: nat, m: nat, next: nat,
      up: bool, down: bool)
    requires Tiling(blocks, size, lo, end) && m in blocks
    requires up ==> next in blocks && m < next
    requires down ==> head in blocks && head < m
    ensures Tiling(MergedBlocks(blocks, m, next, up, down), MergedSizes(size, head, m, next, up, down), lo, end) <==>
      (up ==> m + size[m] == next) && (down ==> head + size[head] == m)
  {
    if (up ==> m + size[m] == next) && (down ==> head + size[head] == m) {
      TouchingMergeTiles(blocks, size, lo, end, head, m, next, up, down);
    } else {
      DistantMergeOverlaps(blocks, size, lo, end, head, m, next, up, down);
    }
  }

  /** No block of the set ends where another one of the set starts. */
  ghost predicate Apart(free: set<nat>, size: map<nat, nat>) {
    && (forall a :: a in free ==> a in size)
    && (forall a, b :: a in free && b in free ==> a + size[a] != b)
  }

  /** Putting m into a set of blocks that lie apart, merged with just those it touches, keeps them apart. */
  lemma MergedStayApart(free: set<nat>, size: map<nat, nat>, head: nat, m: nat, next: nat, up: bool, down: bool)
    requires Apart(free, size) && m in size && size[m] > 0 && m !in free
    requires forall a :: a in free && a + size[a] == m ==> down && a == head
    requires m + size[m] in free ==> up
    requires up ==> next in free && m + size[m] == next
    requires down ==> head in free && head + size[head] == m
    ensures Apart(free - (if up then {next} else {}) + (if down then {} else {m}),
      MergedSizes(size, head, m, next, up, down))
  {
  }

  lemma HandedOut(free: set<nat>, live: set<nat>, m: nat)
    requires free !! live && m !in free
    ensures free !! (live + {m}) && free + (live + {m}) == free + live + {m}
  {
  }
}
