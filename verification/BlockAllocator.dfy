/** The runtime allocator of physical blocks, kernel/arch/i386/balloc.c. */
module BlockAllocator {
  import opened Words
  import opened Bitmap

  const NULL: u32 := 0
  const ADDRESSABLE: nat := 0x10_0000  // blocks in 32 bits of address

  /** The allocator's state: the bitmap it was handed, the number of blocks, and its used counter. */
  datatype Blocks = Blocks(units: seq<u32>, total: nat, used: u32)

  predicate Valid(a: Blocks) {
    a.total <= BLOCKS_PER_UNIT * |a.units| && a.total <= ADDRESSABLE
  }

  // ----- The operations

  function Allocate(a: Blocks, b: nat): Blocks
    requires b < BLOCKS_PER_UNIT * |a.units|
  {
    a.(units := Mark(a.units, b), used := (a.used + 1) % MODULUS)
  }

  function Deallocate(a: Blocks, b: nat): Blocks
    requires b < BLOCKS_PER_UNIT * |a.units|
  {
    a.(units := Unmark(a.units, b), used := (a.used - 1) % MODULUS)
  }

  /** The allocator hands out a block: a free one exists and block 0 is not the first of them. */
  ghost predicate CanAllocate(a: Blocks) {
    Marked(a.units, 0) && !NoneFree(a.units, Searchable(a.total))
  }

  lemma LeastIsUnique(m: seq<u32>, limit: nat, b: nat, c: nat)
    requires IsFirstFree(m, limit, b) && IsFirstFree(m, limit, c)
    ensures b == c
  {
  }

  /** The block that is handed out next. */
  ghost function NextBlock(a: Blocks): (b: nat)
    requires Valid(a) && CanAllocate(a)
    ensures IsFirstFree(a.units, Searchable(a.total), b) && 0 < b < a.total
  {
    var c: nat :| c < Searchable(a.total) && !Marked(a.units, c);
    SomeFirstFree(a.units, Searchable(a.total), c);
    var b :| IsFirstFree(a.units, Searchable(a.total), b);
    b
  }

  ghost function AfterAllocate(a: Blocks): (r: (Blocks, u32))
    requires Valid(a)
    ensures Valid(r.0)
  {
    if CanAllocate(a) then (Allocate(a, NextBlock(a)), PAGE_SIZE * NextBlock(a)) else (a, NULL)
  }

  ghost function AfterDeallocate(a: Blocks, pointer: u32): (r: Blocks)
    requires Valid(a)
    ensures Valid(r)
  {
    var b := pointer / PAGE_SIZE;
    if Marked(a.units, b) && b < a.total then Deallocate(a, b) else a
  }

  // ----- What one call does

  /** NULL comes back exactly when no searchable block is free or block 0 is, and nothing changes then. */
  lemma AllocateBlockTakesLeast(a: Blocks)
    requires Valid(a)
    ensures var (r, p) := AfterAllocate(a);
      && (p == NULL <==> !Marked(a.units, 0) || NoneFree(a.units, Searchable(a.total)))
      && (p == NULL ==> r == a)
      && (p != NULL ==>
        && p % PAGE_SIZE == 0 && IsFirstFree(a.units, Searchable(a.total), p / PAGE_SIZE)
        && forall c :: Marked(r.units, c) <==> c == p / PAGE_SIZE || Marked(a.units, c))
  {
    if CanAllocate(a) {
      forall c ensures Marked(Allocate(a, NextBlock(a)).units, c) <==> c == NextBlock(a) || Marked(a.units, c) {
        MarkMarks(a.units, NextBlock(a), c);
      }
    }
  }

  /** Giving a block back right after taking it restores bitmap and counter. */
  lemma DeallocateUndoesAllocate(a: Blocks)
    requires Valid(a)
    ensures var (r, p) := AfterAllocate(a); p != NULL ==> AfterDeallocate(r, p) == a
  {
    if CanAllocate(a) {
      var b := NextBlock(a);
      UnmarkUndoesMark(a.units, b);
      MarkMarks(a.units, b, b);
    }
  }

  lemma DeallocateBlockGives(a: Blocks, pointer: u32)
    requires Valid(a)
    ensures var r := AfterDeallocate(a, pointer); var b := pointer / PAGE_SIZE;
      forall c :: Marked(r.units, c) <==> Marked(a.units, c) && !(c == b && b < a.total)
  {
    var r := AfterDeallocate(a, pointer);
    var b := pointer / PAGE_SIZE;
    forall c ensures Marked(r.units, c) <==> Marked(a.units, c) && !(c == b && b < a.total) {
      if Marked(a.units, b) && b < a.total { UnmarkUnmarks(a.units, b, c); }
    }
  }

  // ----- The counter

  /** How far the used counter is from the number of marked blocks. */
  function Drift(a: Blocks): u32 {
    (a.used - UsedBelow(a.units, a.total)) % MODULUS
  }

  lemma AllocateBlockKeepsDrift(a: Blocks)
    requires Valid(a)
    ensures Drift(AfterAllocate(a).0) == Drift(a)
  {
    if CanAllocate(a) {
      MarkCounts(a.units, NextBlock(a), a.total);
      WrapBoth(a.used, UsedBelow(a.units, a.total), 1);
    }
  }

  lemma DeallocateBlockKeepsDrift(a: Blocks, pointer: u32)
    requires Valid(a)
    ensures Drift(AfterDeallocate(a, pointer)) == Drift(a)
  {
    var b := pointer / PAGE_SIZE;
    if Marked(a.units, b) && b < a.total {
      UnmarkCounts(a.units, b, a.total);
      WrapBoth(a.used, UsedBelow(a.units, a.total), -1);
    }
  }

  /** How many blocks the allocator can still hand out. */
  function FreeCount(a: Blocks): (n: nat)
    requires Valid(a)
  {
    UsedAtMost(a.units, Searchable(a.total));
    Searchable(a.total) - UsedBelow(a.units, Searchable(a.total))
  }

  lemma AllocatesIffFree(a: Blocks)
    requires Valid(a) && Marked(a.units, 0)
    ensures CanAllocate(a) <==> FreeCount(a) > 0
    ensures CanAllocate(a) ==> FreeCount(AfterAllocate(a).0) == FreeCount(a) - 1
  {
    UsedAtMost(a.units, Searchable(a.total));
    if CanAllocate(a) { MarkCounts(a.units, NextBlock(a), Searchable(a.total)); }
  }

  // ----- Runs

  datatype Call = Take | Give(b: nat)

  /** The allocator together with the blocks that are outstanding. */
  datatype Run = Run(a: Blocks, out: set<nat>)

  ghost predicate LegalCall(s: Run, call: Call) {
    call.Give? ==> call.b in s.out
  }

  /** Outstanding blocks are blocks whose address is not NULL. */
  ghost predicate Sane(s: Run) {
    Valid(s.a) && forall b :: b in s.out ==> 0 < b < s.a.total
  }

  ghost function Do(s: Run, call: Call): Run
    requires Sane(s) && LegalCall(s, call)
  {
    match call
    case Take => var (a, p) := AfterAllocate(s.a); Run(a, if p == NULL then s.out else s.out + {p / PAGE_SIZE})
    case Give(b) => Run(AfterDeallocate(s.a, PAGE_SIZE * b), s.out - {b})
  }

  ghost predicate LegalCalls(s: Run, calls: seq<Call>)
    decreases |calls|
  {
    Sane(s) && (calls == [] || (LegalCall(s, calls[0]) && LegalCalls(Do(s, calls[0]), calls[1..])))
  }

  ghost function DoAll(s: Run, calls: seq<Call>): Run
    requires LegalCalls(s, calls)
    decreases |calls|
  {
    if calls == [] then s else DoAll(Do(s, calls[0]), calls[1..])
  }

  /** The map in s is the map of `start` with just the outstanding blocks added, none of which was marked there. */
  ghost predicate Accounted(start: seq<u32>, s: Run) {
    && Sane(s)
    && (forall b: nat :: Marked(s.a.units, b) <==> Marked(start, b) || b in s.out)
    && (forall b :: b in s.out ==> !Marked(start, b))
    && |s.a.units| == |start|
  }

  lemma StepStaysAccounted(start: seq<u32>, s: Run, call: Call)
    requires Accounted(start, s) && LegalCall(s, call)
    ensures Accounted(start, Do(s, call)) && Drift(Do(s, call).a) == Drift(s.a)
    ensures call.Take? && Do(s, call).out != s.out ==> exists b :: b !in s.out && Do(s, call).out == s.out + {b}
  {
    match call
    case Take =>
      AllocateBlockKeepsDrift(s.a);
      AllocateBlockTakesLeast(s.a);
      if CanAllocate(s.a) { assert NextBlock(s.a) !in s.out; }
    case Give(b) =>
      DeallocateBlockKeepsDrift(s.a, PAGE_SIZE * b);
      DeallocateBlockGives(s.a, PAGE_SIZE * b);
  }

  /**
   Over every run that gives back only outstanding blocks, the bitmap is the one at the start plus
   the outstanding blocks, each handed out once, and the counter keeps its distance from the map.
   */
  lemma {:induction false} RunsStayAccounted(start: seq<u32>, s: Run, calls: seq<Call>)
    requires Accounted(start, s) && LegalCalls(s, calls)
    ensures Accounted(start, DoAll(s, calls)) && Drift(DoAll(s, calls).a) == Drift(s.a)
    decreases |calls|
  {
    if calls != [] {
      StepStaysAccounted(start, s, calls[0]);
      RunsStayAccounted(start, Do(s, calls[0]), calls[1..]);
    }
  }

  /** A run that ends with nothing outstanding leaves the bitmap as it was. */
  lemma RunsRestoreTheMap(a: Blocks, calls: seq<Call>)
    requires LegalCalls(Run(a, {}), calls) && DoAll(Run(a, {}), calls).out == {}
    ensures DoAll(Run(a, {}), calls).a.units == a.units
  {
    RunsStayAccounted(a.units, Run(a, {}), calls);
    SameMap(DoAll(Run(a, {}), calls).a.units, a.units);
  }

  // ----- The program

  class Allocator {
    var mbmp: array<u32>
    var totalBlocks: nat
    var usedBlocks: u32

    ghost function Model(): Blocks
      reads this, mbmp
    {
      Blocks(mbmp[..], totalBlocks, usedBlocks)
    }

    constructor Initialize(mbmp: array<u32>, totalBlocks: nat, usedBlocks: u32)
      requires totalBlocks <= BLOCKS_PER_UNIT * mbmp.Length && totalBlocks <= ADDRESSABLE
      ensures Valid(Model()) && Model() == Blocks(mbmp[..], totalBlocks, usedBlocks) && this.mbmp == mbmp
    {
      this.mbmp, this.totalBlocks, this.usedBlocks := mbmp, totalBlocks, usedBlocks;
    }

    method AllocateBlock() returns (pointer: u32)
      requires Valid(Model())
      modifies this`usedBlocks, mbmp
      ensures (Model(), pointer) == AfterAllocate(old(Model()))
    {
      var b, enomem := FirstFree(mbmp, totalBlocks);
      if b == 0 {
        return NULL;
      }
      LeastIsUnique(mbmp[..], Searchable(totalBlocks), b, NextBlock(Model()));
      var i, j := b / BLOCKS_PER_UNIT, b % BLOCKS_PER_UNIT;
      mbmp[i] := WithBit(mbmp[i], j);
      usedBlocks := (usedBlocks + 1) % MODULUS;
      pointer := PAGE_SIZE * b;
    }

    method DeallocateBlock(pointer: u32)
      requires Valid(Model())
      modifies this`usedBlocks, mbmp
      ensures Model() == AfterDeallocate(old(Model()), pointer)
    {
      var b := pointer / PAGE_SIZE;
      var i, j := b / BLOCKS_PER_UNIT, b % BLOCKS_PER_UNIT;
      // the units behind the map are not modelled: what is read there does not matter, as b is then out of range
      if i < mbmp.Length {
        MaskedBit(mbmp[i], j);
        if And(mbmp[i], Pow2(j)) != 0 {
          if b < totalBlocks {
            mbmp[i] := WithoutBit(mbmp[i], j);
            usedBlocks := (usedBlocks - 1) % MODULUS;
          }
        }
      }
    }
  }
}
