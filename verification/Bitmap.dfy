/** The block bitmap that both allocators share: one bit for each 4096-byte block, set when it is in use. */
module Bitmap {
  import opened Words

  const PAGE_SIZE: nat := 4096
  const BLOCKS_PER_UNIT: nat := 32
  const FULL_UNIT: u32 := 0xffff_ffff

  // ----- The map as a sequence of units

  /** The bit of block b is set; blocks beyond the map count as not set. */
  predicate Marked(m: seq<u32>, b: nat) {
    b / BLOCKS_PER_UNIT < |m| && Bit(m[b / BLOCKS_PER_UNIT], b % BLOCKS_PER_UNIT)
  }

  function Mark(m: seq<u32>, b: nat): (r: seq<u32>)
    requires b < BLOCKS_PER_UNIT * |m|
    ensures |r| == |m|
  {
    m[b / BLOCKS_PER_UNIT := WithBit(m[b / BLOCKS_PER_UNIT], b % BLOCKS_PER_UNIT)]
  }

  function Unmark(m: seq<u32>, b: nat): (r: seq<u32>)
    requires b < BLOCKS_PER_UNIT * |m|
    ensures |r| == |m|
  {
    m[b / BLOCKS_PER_UNIT := WithoutBit(m[b / BLOCKS_PER_UNIT], b % BLOCKS_PER_UNIT)]
  }

  /** Marking a block changes the bit of that block and no other. */
  lemma MarkMarks(m: seq<u32>, b: nat, c: nat)
    requires b < BLOCKS_PER_UNIT * |m|
    ensures Marked(Mark(m, b), c) <==> c == b || Marked(m, c)
  {
    if c / BLOCKS_PER_UNIT == b / BLOCKS_PER_UNIT {
      WithBitBits(m[b / BLOCKS_PER_UNIT], b % BLOCKS_PER_UNIT, c % BLOCKS_PER_UNIT);
    }
  }

  lemma UnmarkUnmarks(m: seq<u32>, b: nat, c: nat)
    requires b < BLOCKS_PER_UNIT * |m|
    ensures Marked(Unmark(m, b), c) <==> c != b && Marked(m, c)
  {
    if c / BLOCKS_PER_UNIT == b / BLOCKS_PER_UNIT {
      WithoutBitBits(m[b / BLOCKS_PER_UNIT], b % BLOCKS_PER_UNIT, c % BLOCKS_PER_UNIT);
    }
  }

  /** Block 32 * i + j has the bit of value 2^j in unit i. */
  lemma {:induction false} MarkedBit(m: seq<u32>, i: nat, j: nat)
    requires i < |m| && j < 32
    ensures Marked(m, 32 * i + j) <==> m[i] / Pow2(j) % 2 == 1
  {
    BitIsQuotient(m[i], j);
    assert (32 * i + j) / BLOCKS_PER_UNIT == i && (32 * i + j) % BLOCKS_PER_UNIT == j;
  }

  /** Maps with the same bits are the same unit for unit. */
  lemma SameMap(m: seq<u32>, n: seq<u32>)
    requires |m| == |n| && forall b: nat :: b < BLOCKS_PER_UNIT * |m| ==> (Marked(m, b) <==> Marked(n, b))
    ensures m == n
  {
    forall i | 0 <= i < |m| ensures m[i] == n[i] {
      forall j | 0 <= j < 32 ensures Bit(m[i], j) <==> Bit(n[i], j) {
        var b := BLOCKS_PER_UNIT * i + j;
        assert b / BLOCKS_PER_UNIT == i && b % BLOCKS_PER_UNIT == j;
        assert Marked(m, b) <==> Marked(n, b);
      }
      SameWord(m[i], n[i]);
    }
  }

  /** Giving back the block just taken restores the map bit for bit. */
  lemma UnmarkUndoesMark(m: seq<u32>, b: nat)
    requires b < BLOCKS_PER_UNIT * |m| && !Marked(m, b)
    ensures Unmark(Mark(m, b), b) == m
  {
    forall c: nat | c < BLOCKS_PER_UNIT * |m| ensures Marked(Unmark(Mark(m, b), b), c) <==> Marked(m, c) {
      MarkMarks(m, b, c);
      UnmarkUnmarks(Mark(m, b), b, c);
    }
    SameMap(Unmark(Mark(m, b), b), m);
  }

  // ----- Counting

  /** How many blocks below n are marked. */
  function UsedBelow(m: seq<u32>, n: nat): nat {
    if n == 0 then 0 else UsedBelow(m, n - 1) + if Marked(m, n - 1) then 1 else 0
  }

  lemma {:induction false} MarkCounts(m: seq<u32>, b: nat, n: nat)
    requires b < BLOCKS_PER_UNIT * |m|
    ensures UsedBelow(Mark(m, b), n) == UsedBelow(m, n) + if b < n && !Marked(m, b) then 1 else 0
  {
    if n > 0 {
      MarkCounts(m, b, n - 1);
      MarkMarks(m, b, n - 1);
    }
  }

  lemma {:induction false} UnmarkCounts(m: seq<u32>, b: nat, n: nat)
    requires b < BLOCKS_PER_UNIT * |m|
    ensures UsedBelow(Unmark(m, b), n) == UsedBelow(m, n) - if b < n && Marked(m, b) then 1 else 0
  {
    if n > 0 {
      UnmarkCounts(m, b, n - 1);
      UnmarkUnmarks(m, b, n - 1);
    }
  }

  // ----- Searching

  /** The search looks at whole units only. */
  function Searchable(totalBlocks: nat): nat {
    BLOCKS_PER_UNIT * (totalBlocks / BLOCKS_PER_UNIT)
  }

  /** That is, all blocks but those of a last unit that is not whole. */
  lemma SearchableBlocks(totalBlocks: nat)
    ensures Searchable(totalBlocks) % 32 == 0 && Searchable(totalBlocks) <= totalBlocks < Searchable(totalBlocks) + 32
  {
  }

  ghost predicate IsFirstFree(m: seq<u32>, limit: nat, b: nat) {
    && b < limit && !Marked(m, b)
    && forall c: nat :: c < b ==> Marked(m, c)
  }

  ghost predicate NoneFree(m: seq<u32>, limit: nat) {
    forall c: nat :: c < limit ==> Marked(m, c)
  }

  lemma {:induction false} UsedAtMost(m: seq<u32>, n: nat)
    ensures UsedBelow(m, n) <= n
    ensures UsedBelow(m, n) == n <==> NoneFree(m, n)
  {
    if n > 0 {
      UsedAtMost(m, n - 1);
      assert NoneFree(m, n) <==> NoneFree(m, n - 1) && Marked(m, n - 1);
    }
  }

  lemma {:induction false} SomeFirstFree(m: seq<u32>, limit: nat, c: nat)
    requires c < limit && !Marked(m, c)
    ensures exists b :: IsFirstFree(m, limit, b)
  {
    if d: nat :| d < c && !Marked(m, d) { SomeFirstFree(m, limit, d); } else { assert IsFirstFree(m, limit, c); }
  }

  /** The least free block, or 0 together with an out-of-memory report if all searchable ones are in use. */
  method FirstFree(units: array<u32>, totalBlocks: nat) returns (b: nat, enomem: bool)
    requires totalBlocks / BLOCKS_PER_UNIT <= units.Length
    ensures enomem ==> b == 0 && NoneFree(units[..], Searchable(totalBlocks))
    ensures !enomem ==> IsFirstFree(units[..], Searchable(totalBlocks), b)
  {
    var i := 0;
    while i < totalBlocks / BLOCKS_PER_UNIT
      invariant i <= totalBlocks / BLOCKS_PER_UNIT
      invariant NoneFree(units[..], BLOCKS_PER_UNIT * i)
    {
      var j := 0;
      if units[i] != FULL_UNIT {
        while j < BLOCKS_PER_UNIT
          invariant j <= BLOCKS_PER_UNIT
          invariant NoneFree(units[..], BLOCKS_PER_UNIT * i + j)
        {
          ShrBits(units[i], j);
          LowestBit(Shr(units[i], j));
          var at := BLOCKS_PER_UNIT * i + j;
          assert at / BLOCKS_PER_UNIT == i && at % BLOCKS_PER_UNIT == j;
          assert Marked(units[..], at) <==> Bit(units[i], j);
          if And(Shr(units[i], j), 1) == 0 {
            return at, false;
          }
          j := j + 1;
        }
      } else {
        forall c: nat | c < BLOCKS_PER_UNIT * (i + 1) ensures Marked(units[..], c) {
          if c >= BLOCKS_PER_UNIT * i { FullWord(units[i], c % BLOCKS_PER_UNIT); }
        }
      }
      i := i + 1;
    }
    return 0, true;
  }
}
