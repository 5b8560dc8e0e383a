/**
 The allocator of libc/stdlib/malloc.c as a value: the circular free list in address order, the
 size fields, and the blocks currently handed out. Addresses and sizes are in bytes.

 The two adjacency tests of `free` add a byte count to a header pointer, so C multiplies the count
 by the header size. `scaled` selects that reading (the file as written); with `scaled` false the
 tests compare byte addresses, as the split in `malloc` does.
 */
module HeapModel {
  import opened Tilings

  const MIN_REQUEST: nat := 1024
  const WRAP: nat := 0x1_0000_0000

  /**
   base:  address of the static header `_base`, which lies below the heap
   lo:    first byte obtained from sbrk;  brk: one past the last
   list:  the free list starting at `base`, in link order; empty before the first call
   size:  the size field stored at each header address
   live:  headers of the blocks handed out
   rover: the position in `list` of `_next_free`
   */
  datatype Heap = Heap(base: nat, lo: nat, brk: nat, list: seq<nat>, size: map<nat, nat>, live: set<nat>, rover: nat)

  // ----- The invariant

  ghost function Elements(s: seq<nat>): set<nat> {
    set a | a in s
  }

  /** The free blocks, without the static header. */
  ghost function FreeSet(h: Heap): set<nat> {
    Elements(h.list) - {h.base}
  }

  ghost function Blocks(h: Heap): set<nat> {
    FreeSet(h) + h.live
  }

  ghost predicate Ascending(s: seq<nat>) {
    forall i, j :: 0 <= i < j < |s| ==> s[i] < s[j]
  }

  /** One ring through `_base`, strictly address-ordered, so that it wraps exactly once. */
  ghost predicate Linked(h: Heap) {
    && |h.list| > 0
    && h.list[0] == h.base
    && 0 < h.base
    && h.base + HEADER <= h.lo
    && Ascending(h.list)
    && h.rover < |h.list|
    && h.base in h.size
    && h.size[h.base] == 0
  }

  /** The free and the live blocks, headers included, tile the memory obtained from sbrk. */
  ghost predicate Tiled(h: Heap) {
    && Tiling(Blocks(h), h.size, h.lo, h.brk)
    && h.brk < WRAP
    && FreeSet(h) !! h.live
  }

  ghost predicate Inv(h: Heap) {
    Linked(h) && Tiled(h)
  }

  /** No free block ends where another free block starts. */
  ghost predicate Coalesced(h: Heap) {
    Apart(FreeSet(h), h.size)
  }

  /** All sizes are multiples of the header size, so that no split leaves less than a header. */
  ghost predicate Multiples(h: Heap) {
    forall a :: a in Blocks(h) ==> a in h.size && h.size[a] % HEADER == 0
  }

  // ----- free

  /** The last list position whose header lies below m. */
  function Slot(list: seq<nat>, m: nat): (i: nat)
    requires |list| > 0
    ensures i < |list|
  {
    if |list| == 1 || list[|list| - 1] < m then |list| - 1 else Slot(list[..|list| - 1], m)
  }

  lemma {:induction false} SlotIsUnique(list: seq<nat>, m: nat, k: nat)
    requires |list| > 0 && Ascending(list) && list[0] < m && m !in list && k < |list|
    ensures list[Slot(list, m)] < m
    ensures Slot(list, m) + 1 < |list| ==> m < list[Slot(list, m) + 1]
    ensures k == Slot(list, m) <==> list[k] < m && (k + 1 < |list| ==> m < list[k + 1])
  {
    var n := |list| - 1;
    if !(n == 0 || list[n] < m) {
      var front := list[..n];
      SlotIsUnique(front, m, if k < n then k else 0);
      assert m != list[n];
      assert Slot(front, m) + 1 < n ==> front[Slot(front, m) + 1] == list[Slot(front, m) + 1];
      if k < n && k + 1 < n { assert front[k + 1] == list[k + 1]; }
    }
  }

  function RemoveAt(s: seq<nat>, k: nat): seq<nat>
    requires k < |s|
  {
    s[..k] + s[k + 1..]
  }

  function InsertAt(s: seq<nat>, k: nat, x: nat): seq<nat>
    requires k <= |s|
  {
    s[..k] + [x] + s[k..]
  }

  function Next(list: seq<nat>, i: nat): nat
    requires i < |list|
  {
    if i + 1 < |list| then list[i + 1] else list[0]
  }

  /** The address that an adjacency test computes for a block: `p + p->s.size`. */
  function Reach(a: nat, size: nat, scaled: bool): nat {
    (a + (if scaled then HEADER * size else size)) % WRAP
  }

  predicate Freeable(h: Heap, m: nat) {
    && |h.list| > 0
    && (forall a :: a in h.list ==> a in h.size)
    && m in h.size
  }

  predicate MergesUp(h: Heap, m: nat, scaled: bool)
    requires Freeable(h, m)
  {
    Reach(m, h.size[m], scaled) == Next(h.list, Slot(h.list, m))
  }

  predicate MergesDown(h: Heap, m: nat, scaled: bool)
    requires Freeable(h, m)
  {
    var head := h.list[Slot(h.list, m)];
    Reach(head, h.size[head], scaled) == m
  }

  /** What `free` makes of the heap when it is given the block with header m. */
  function Release(h: Heap, m: nat, scaled: bool): Heap
    requires Freeable(h, m)
  {
    ReleaseWith(h, m, MergesUp(h, m, scaled), MergesDown(h, m, scaled))
  }

  /** The same for given outcomes of the two adjacency tests. */
  function ReleaseWith(h: Heap, m: nat, up: bool, down: bool): Heap
    requires Freeable(h, m)
  {
    var i, n := Slot(h.list, m), |h.list|;
    var head, next := h.list[i], Next(h.list, i);
    h.(list := Spliced(h.list, i, m, up && n > 1, down),
       size := MergedSizes(h.size, head, m, next, up, down),
       live := h.live - {m},
       rover := Kept(n, i, up && n > 1))
  }

  /** The list after `free`: the successor goes if it was merged, m comes in unless it was. */
  function Spliced(list: seq<nat>, i: nat, m: nat, joined: bool, down: bool): seq<nat>
    requires i < |list| && (joined ==> |list| > 1)
  {
    var rest := if joined then RemoveAt(list, if i + 1 < |list| then i + 1 else 0) else list;
    if down then rest else InsertAt(rest, Kept(|list|, i, joined) + 1, m)
  }

  /** The position of the block at i after its successor in the ring has gone. */
  function Kept(n: nat, i: nat, joined: bool): (k: nat)
    requires i < n && (joined ==> n > 1)
    ensures k < if joined then n - 1 else n
  {
    if joined && i + 1 == n then i - 1 else i
  }

  /** The merges of one `free` join only blocks that really touch. */
  ghost predicate SoundMerges(h: Heap, m: nat, up: bool, down: bool)
    requires Freeable(h, m)
  {
    var i := Slot(h.list, m);
    var head, next := h.list[i], Next(h.list, i);
    && (up ==> |h.list| == 1 || m + h.size[m] == next)
    && (down ==> i > 0 && head + h.size[head] == m)
  }

  /** The merges that `free` of m makes are sound. */
  ghost predicate SoundRelease(h: Heap, m: nat, scaled: bool) {
    Freeable(h, m) && SoundMerges(h, m, MergesUp(h, m, scaled), MergesDown(h, m, scaled))
  }

  // ----- malloc

  predicate Fits(h: Heap, alloc: nat, k: nat)
    requires k < |h.list|
  {
    h.list[k] in h.size && alloc <= h.size[h.list[k]]
  }

  function NextIndex(n: nat, k: nat): (r: nat)
    requires k < n
    ensures r < n
  {
    if k + 1 < n then k + 1 else 0
  }

  /** How many steps round a ring of n positions lead from k to j. */
  function Steps(n: nat, k: nat, j: nat): (d: nat)
    requires k < n && j < n
    ensures d < n
  {
    if k <= j then j - k else j + n - k
  }

  /** Of the positions that fit, the one met first when the search goes round the ring from k on. */
  ghost predicate FirstFit(h: Heap, alloc: nat, k: nat, j: nat)
    requires k < |h.list|
  {
    && j < |h.list| && Fits(h, alloc, j)
    && forall i :: 0 <= i < |h.list| && Steps(|h.list|, k, i) < Steps(|h.list|, k, j) ==> !Fits(h, alloc, i)
  }

  ghost predicate NoneFits(h: Heap, alloc: nat) {
    forall j :: 0 <= j < |h.list| ==> !Fits(h, alloc, j)
  }

  /** The header that is handed out when the block at position k serves a request. */
  function Served(h: Heap, k: nat, alloc: nat): nat
    requires k < |h.list| && Fits(h, alloc, k)
  {
    h.list[k] + (h.size[h.list[k]] - alloc)
  }

  /** Take the whole block at position k, or split the request off its upper end. */
  function Serve(h: Heap, k: nat, alloc: nat): Heap
    requires 0 < k < |h.list| && Fits(h, alloc, k)
  {
    var a := h.list[k];
    var rest := h.size[a] - alloc;
    if rest == 0 then h.(list := RemoveAt(h.list, k), live := h.live + {a}, rover := k - 1)
    else h.(size := h.size[a := rest][a + rest := alloc], live := h.live + {a + rest}, rover := k - 1)
  }

  /** The bytes that `malloc` looks for: the sum with the header is one of 32 bits. */
  function Allocation(nbytes: nat): nat {
    (nbytes + HEADER) % WRAP
  }

  /** The bytes `morecore` asks sbrk for, again a sum of 32 bits. */
  function Request(alloc: nat): (bytes: nat)
    ensures MIN_REQUEST <= bytes < WRAP
  {
    var bytes := (alloc + HEADER) % WRAP;
    if bytes < MIN_REQUEST then MIN_REQUEST else bytes
  }

  /** A request for which neither of the two sums wraps. */
  predicate Sane(alloc: nat) {
    HEADER <= alloc && alloc + HEADER < WRAP
  }

  /** The heap with a fresh region at the break, held as a live block until it is freed. */
  function Extend(h: Heap, bytes: nat): Heap {
    h.(brk := (h.brk + bytes) % WRAP, size := h.size[h.brk := bytes], live := h.live + {h.brk})
  }

  /** A successful `morecore`: extend the heap and `free` the new region. */
  function Grow(h: Heap, alloc: nat, scaled: bool): Heap
    requires Freeable(Extend(h, Request(alloc)), h.brk)
  {
    Release(Extend(h, Request(alloc)), h.brk, scaled)
  }

  /**
   sbrk answers the request with memory: it finds the blocks for it, and the new break, a sum of 32
   bits as well, is not below the heap.
   */
  predicate Granted(h: Heap, alloc: nat, reply: bool) {
    reply && (h.brk + Request(alloc)) % WRAP >= h.lo
  }

  /** The new break wraps and comes back into the heap, where sbrk takes it for a lower one. */
  predicate ComesBack(h: Heap, alloc: nat) {
    h.brk + Request(alloc) >= WRAP + h.lo
  }

  /** The first call makes a ring of `_base` alone. */
  function Started(h: Heap): Heap {
    if h.list == [] then h.(list := [h.base], size := h.size[h.base := 0], rover := 0) else h
  }

  /**
   The headers that a call which turns h into r may write: the static one, those in the list before,
   those of blocks that stop or begin to be in use, and whatever lies above the break before.
   */
  ghost predicate MayWrite(h: Heap, r: Heap, x: nat) {
    x == h.base || x in h.list || x >= h.brk || (x in h.live && x !in r.live) || (x in r.live && x !in h.live)
  }

  /** The merges made by one successful `morecore` join blocks that touch. */
  ghost predicate SoundGrowth(h: Heap, alloc: nat, scaled: bool) {
    var e := Extend(h, Request(alloc));
    Freeable(e, h.brk) && SoundMerges(e, h.brk, MergesUp(e, h.brk, scaled), MergesDown(e, h.brk, scaled))
  }
}
