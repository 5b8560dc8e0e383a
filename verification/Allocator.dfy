/** The allocator as the program keeps it: header fields in memory and two static variables. */
module Allocator {
  import opened Options
  import opened Tilings
  import opened HeapModel
  import opened HeapProofs
  import opened MallocProofs
  import opened NextFit
  import opened SearchLoop

  /** The `next` fields of the listed headers close a ring. */
  ghost predicate Ring(list: seq<nat>, next: map<nat, nat>) {
    forall i {:trigger Next(list, i)} :: 0 <= i < |list| ==> list[i] in next && next[list[i]] == Next(list, i)
  }

  lemma RingAt(list: seq<nat>, next: map<nat, nat>, i: nat)
    requires Ring(list, next) && i < |list|
    ensures list[i] in next && next[list[i]] == Next(list, i)
  {
  }

  lemma RingRemove(list: seq<nat>, next: map<nat, nat>, k: nat)
    requires Ring(list, next) && Ascending(list) && 0 < k < |list|
    requires list[k] in next
    ensures Ring(RemoveAt(list, k), next[list[k - 1] := next[list[k]]])
  {
    var r := RemoveAt(list, k);
    RingAt(list, next, k);
    forall i | 0 <= i < |r| ensures r[i] in next && next[list[k - 1] := next[list[k]]][r[i]] == Next(r, i) {
      RingAt(list, next, if i < k then i else i + 1);
    }
  }

  lemma RingInsert(list: seq<nat>, next: map<nat, nat>, i: nat, m: nat)
    requires Ring(list, next) && Ascending(list) && i < |list| && m !in list
    requires list[i] in next
    ensures Ring(InsertAt(list, i + 1, m), next[m := next[list[i]]][list[i] := m])
  {
    var r := InsertAt(list, i + 1, m);
    var next' := next[m := next[list[i]]][list[i] := m];
    RingAt(list, next, i);
    forall j | 0 <= j < |r| ensures r[j] in next' && next'[r[j]] == Next(r, j) {
      if j != i + 1 { RingAt(list, next, if j <= i then j else j - 1); }
    }
  }

  /** Taking the successor of position i out of the ring, wherever the ring starts. */
  lemma RingJoin(list: seq<nat>, next: map<nat, nat>, i: nat)
    requires Ring(list, next) && Ascending(list) && i < |list| && |list| > 1
    ensures var rest := RemoveAt(list, if i + 1 < |list| then i + 1 else 0);
      && rest[Kept(|list|, i, true)] == list[i]
      && Ring(rest, next[list[i] := Next(list, NextIndex(|list|, i))])
  {
    var gone := if i + 1 < |list| then i + 1 else 0;
    var rest := RemoveAt(list, gone);
    var next' := next[list[i] := Next(list, NextIndex(|list|, i))];
    forall j | 0 <= j < |rest| ensures rest[j] in next' && next'[rest[j]] == Next(rest, j) {
      RingAt(list, next, if j < gone then j else j + 1);
    }
  }

  lemma RingElsewhere(list: seq<nat>, next: map<nat, nat>, m: nat, v: nat)
    requires Ring(list, next) && m !in list
    ensures Ring(list, next[m := v])
  {
    forall i | 0 <= i < |list| ensures list[i] in next && next[m := v][list[i]] == Next(list, i) {
      RingAt(list, next, i);
    }
  }

  /** The links as `free` writes them, once the successor has been dealt with. */
  lemma RingPut(rest: seq<nat>, next: map<nat, nat>, at: nat, m: nat, down: bool)
    requires Ascending(rest) && at < |rest| && m !in rest
    requires Ring(rest, next[rest[at] := Next(rest, at)])
    ensures var after := Next(rest, at);
      Ring(if down then rest else InsertAt(rest, at + 1, m), next[m := after][rest[at] := if down then after else m])
  {
    var after := Next(rest, at);
    var next1: map<nat, nat> := next[rest[at] := after];
    if down {
      RingElsewhere(rest, next1, m, after);
      assert next1[m := after] == next[m := after][rest[at] := after];
    } else {
      RingInsert(rest, next1, at, m);
      assert next1[m := after][rest[at] := m] == next[m := after][rest[at] := m];
    }
  }

  /** The address in the `next` field of the successor, if that is merged, or of the successor itself. */
  function After(list: seq<nat>, i: nat, up: bool): nat
    requires i < |list|
  {
    if up then Next(list, NextIndex(|list|, i)) else Next(list, i)
  }

  lemma RingAround(list: seq<nat>, next: map<nat, nat>, i: nat, m: nat, up: bool, down: bool)
    requires Ring(list, next) && Ascending(list) && i < |list| && m !in list
    ensures Ring(
        Spliced(list, i, m, up && |list| > 1, down),
        next[m := After(list, i, up)][list[i] := if down then After(list, i, up) else m])
  {
    if up && |list| > 1 {
      var rest := RemoveAt(list, if i + 1 < |list| then i + 1 else 0);
      RingJoin(list, next, i);
      JoinedFacts(list, i);
      RingPut(rest, next, Kept(|list|, i, true), m, down);
    } else {
      RingAt(list, next, i);
      assert next[list[i] := Next(list, i)] == next;
      RingPut(list, next, i, m, down);
    }
  }

  lemma RingSpliced(list: seq<nat>, next: map<nat, nat>, m: nat, up: bool, down: bool)
    requires Ring(list, next) && Ascending(list) && |list| > 0 && list[0] < m && m !in list
    ensures var i: nat := Slot(list, m);
      var r: seq<nat> := Spliced(list, i, m, up && |list| > 1, down);
      var at: nat := Kept(|list|, i, up && |list| > 1);
      && at < |r| && r[at] == list[i]
      && Ring(r, next[m := After(list, i, up)][list[i] := if down then After(list, i, up) else m])
  {
    var i := Slot(list, m);
    SlotIsUnique(list, m, i);
    SplicedFacts(list, i, m, up && |list| > 1, down);
    RingAround(list, next, i, m, up, down);
  }

  lemma RingLinks(list: seq<nat>, next: map<nat, nat>, i: nat)
    requires Ring(list, next) && i < |list|
    ensures list[i] in next && next[list[i]] == Next(list, i) && Next(list, i) in list
    ensures Next(list, i) in next && next[Next(list, i)] == Next(list, NextIndex(|list|, i))
  {
    RingAt(list, next, i);
    RingAt(list, next, NextIndex(|list|, i));
    assert list[NextIndex(|list|, i)] == Next(list, i);
  }

  /** What `morecore` needs to know about the region it frees: it lies above all other blocks. */
  lemma DonationFacts(h: Heap, alloc: nat, scaled: bool)
    requires Inv(h) && h.brk + Request(alloc) < WRAP && SoundGrowth(h, alloc, scaled)
    ensures var e := Extend(h, Request(alloc));
      && h.base < h.brk && h.brk !in h.list
      && Freeable(e, h.brk)
      && LinkAfter(e, h.brk, scaled) == h.base
      && Ascending(Grow(h, alloc, scaled).list) && Grow(h, alloc, scaled).list[0] == h.base
  {
    ExtendedKeepsInv(h, Request(alloc));
    GrowthShape(h, alloc, scaled);
    TopSlot(h, Request(alloc));
    assert h.brk in h.list ==> h.brk in Elements(h.list);
  }

  /** What `free` leaves in the `next` field of the freed header, merged or not. */
  ghost function LinkAfter(h: Heap, m: nat, scaled: bool): nat
    requires Freeable(h, m)
  {
    After(h.list, Slot(h.list, m), MergesUp(h, m, scaled))
  }

  ghost predicate LinkLeft(h: Heap, next: map<nat, nat>, m: nat, scaled: bool) {
    Freeable(h, m) && m in next && next[m] == LinkAfter(h, m, scaled)
  }

  /** `free` of m turns h into r. */
  ghost predicate Released(h: Heap, r: Heap, m: nat, scaled: bool) {
    Freeable(h, m) && r == Release(h, m, scaled)
  }

  lemma GrowthFollows(h: Heap, alloc: nat, scaled: bool)
    requires CanGrow(h, alloc, scaled)
    ensures Follows(h, Grown(h, alloc, scaled))
    ensures var e := Extend(h, Request(alloc)); Slot(e.list, h.brk) < |h.list| && e.list[Slot(e.list, h.brk)] in h.list
  {
    hide Grow;
  }

  const NULL: nat := 0

  // ----- What is written

  ghost predicate SameOutside(m: map<nat, nat>, n: map<nat, nat>, w: set<nat>) {
    forall x {:trigger x in w} :: x !in w ==> (x in m <==> x in n) && (x in m ==> m[x] == n[x])
  }

  /** The header fields: the links and the sizes by header address. */
  datatype Fields = Fields(next: map<nat, nat>, size: map<nat, nat>)

  /** Between two moments the log has grown from v to w, and fields of headers outside w are as they were. */
  ghost predicate Logged(f: Fields, g: Fields, v: set<nat>, w: set<nat>) {
    v <= w && SameOutside(f.next, g.next, w) && SameOutside(f.size, g.size, w)
  }

  lemma LoggedTwice(f: Fields, g: Fields, h: Fields, u: set<nat>, v: set<nat>, w: set<nat>)
    requires Logged(f, g, u, v) && Logged(g, h, v, w)
    ensures Logged(f, h, u, w)
  {
  }

  /** Besides what was in the log before, only headers of the list of h and those above its break are in it. */
  ghost predicate WroteWithin(h: Heap, v: set<nat>, w: set<nat>) {
    forall x :: x in w ==> x in v || x in h.list || x >= h.brk
  }

  /** The list has changed only above the break of h. */
  ghost predicate Follows(h: Heap, g: Heap) {
    h.brk <= g.brk && g.live == h.live && g.base == h.base && forall x :: x in g.list ==> x in h.list || x >= h.brk
  }

  lemma FollowsTwice(h: Heap, g: Heap, f: Heap, u: set<nat>, v: set<nat>, w: set<nat>)
    requires Follows(h, g) && Follows(g, f) && WroteWithin(h, u, v) && WroteWithin(g, v, w)
    ensures Follows(h, f) && WroteWithin(h, u, w)
  {
  }

  /**
   Where the search s leaves the allocator: at the upper end of the block it found, behind the header
   that is handed out, and with the header before that block as the next to begin from.
   */
  ghost predicate LeavesOff(s: MallocProofs.Search, alloc: nat, nextFree: nat, p: nat) {
    match s.at
    case None => p == NULL
    case Some(j) =>
      && 0 < j < |s.heap.list| && Fits(s.heap, alloc, j)
      && nextFree == s.heap.list[j - 1]
      && p == s.heap.list[j] + (s.heap.size[s.heap.list[j]] - alloc) + HEADER
  }

  /** s is the search that a call for alloc bytes makes. */
  ghost predicate SearchOf(h: Heap, alloc: nat, replies: seq<bool>, scaled: bool, s: MallocProofs.Search) {
    && SafeCall(h, alloc, Reply(replies), Reply(Rest(replies)), scaled)
    && s == Searched(Started(h), alloc, Reply(replies), Reply(Rest(replies)), scaled)
  }

  /** What `free` needs to know about the block it is given. */
  lemma FreedFacts(h: Heap, m: nat, scaled: bool)
    requires Inv(h) && m in h.live
    ensures Freeable(h, m) && h.base < m && m !in h.list
    ensures var r := Release(h, m, scaled);
      && (Inv(r) <==> SoundRelease(h, m, scaled))
      && MayWrite(h, r, m) && MayWrite(h, r, h.list[Slot(h.list, m)])
      && r.base == h.base && r.brk == h.brk && r.lo == h.lo
  {
    Neighbours(h, m);
    ReleaseKeepsTilingIff(h, m, scaled);
  }

  lemma SlotIsBelow(h: Heap, m: nat)
    requires Inv(h) && h.base < m && m !in h.list
    ensures NextBelow(h.list, m, h.list[Slot(h.list, m)])
  {
    hide Tiling;
    SlotIsUnique(h.list, m, 0);
    assert forall k :: 0 <= k < |h.list| && h.list[k] < m ==> k <= Slot(h.list, m);
  }

  // ----- A whole call

  /** What a call comes to: the heap after it, how often sbrk is asked, and the address that comes back. */
  datatype Plan = Plan(heap: Heap, asked: nat, pointer: nat)

  /**
   What `malloc` makes of h for alloc bytes; none if a growth would merge what does not touch, or a sum
   would wrap.
   */
  ghost function Planned(h: Heap, alloc: nat, replies: seq<bool>, scaled: bool): Option<Plan> {
    if SafeCall(h, alloc, Reply(replies), Reply(Rest(replies)), scaled) then
      var s := Searched(Started(h), alloc, Reply(replies), Reply(Rest(replies)), scaled);
      var o := MallocProofs.Malloc(h, alloc, Reply(replies), Reply(Rest(replies)), scaled);
      Some(Plan(o.heap, s.asked, Pointer(o.block)))
    else None
  }

  lemma CallHunts(h: Heap, alloc: nat, replies: seq<bool>, scaled: bool, asked: nat)
    requires SafeCall(h, alloc, Reply(replies), Reply(Rest(replies)), scaled) && asked == 0
    ensures Started(h).list != []
    ensures SafeFrom(Started(h), NextIndex(|Started(h).list|, Started(h).rover), alloc, replies, scaled)
    ensures Hunt(Started(h), NextIndex(|Started(h).list|, Started(h).rover), alloc, replies, scaled, asked) ==
      Searched(Started(h), alloc, Reply(replies), Reply(Rest(replies)), scaled)
  {
    StartedKeepsInv(h);
    HuntCounted(Started(h), alloc, replies, scaled, asked);
  }

  lemma CallEnds(h: Heap, alloc: nat, replies: seq<bool>, scaled: bool, s: MallocProofs.Search)
    requires SafeCall(h, alloc, Reply(replies), Reply(Rest(replies)), scaled)
    requires s == Searched(Started(h), alloc, Reply(replies), Reply(Rest(replies)), scaled)
    ensures s.asked <= 2
    ensures var o := MallocProofs.Malloc(h, alloc, Reply(replies), Reply(Rest(replies)), scaled);
      if s.at.None? then o == Outcome(s.heap, None)
      else
        && 0 < s.at.value < |s.heap.list| && Fits(s.heap, alloc, s.at.value)
        && o == Outcome(Serve(s.heap, s.at.value, alloc), Some(Served(s.heap, s.at.value, alloc)))
        && Served(s.heap, s.at.value, alloc) !in h.live && Served(s.heap, s.at.value, alloc) in o.heap.live
  {
    hide SafeGrowths;
    MallocServes(h, alloc, Reply(replies), Reply(Rest(replies)), scaled, s);
    SearchEndsWell(Started(h), alloc, Reply(replies), Reply(Rest(replies)), scaled);
    if s.at.Some? { ServedIsNew(s.heap, s.at.value, alloc); }
  }

  lemma ServedIsNew(h: Heap, k: nat, alloc: nat)
    requires Inv(h) && 0 < k < |h.list| && Fits(h, alloc, k) && 0 < alloc
    ensures Served(h, k, alloc) !in h.live && Served(h, k, alloc) in Serve(h, k, alloc).live
  {
    NextIsFree(h, k);
    assert h.list[k] in Blocks(h);
    assert forall a :: a in h.live ==> a in Blocks(h);
  }

  /** The memory of the allocator: `next` and `size` hold the header fields by header address. */
  class KernelHeap {
    const base: nat
    const heapBase: nat  // where sbrk begins
    const scaled: bool
    var next: map<nat, nat>
    var size: map<nat, nat>
    var nextFree: nat
    var brk: nat
    var replies: seq<bool>  // what sbrk will answer: granted or not, refusing when there are no more
    ghost var h: Heap
    ghost var calls: nat       // how often sbrk has been asked
    ghost var wrote: set<nat>  // the headers written by the current call

    ghost function Memory(): Fields
      reads `next, `size
    {
      Fields(next, size)
    }

    ghost predicate Represents()
      reads this
    {
      && h.base == base > 0 && h.size == size && h.brk == brk && h.lo == heapBase
      && if h.list == [] then
           nextFree == NULL
         else
           && Ascending(h.list) && h.list[0] == base && Ring(h.list, next)
           && h.rover < |h.list| && nextFree == h.list[h.rover]
    }

    constructor (base: nat, lo: nat, scaled: bool, replies: seq<bool>)
      requires 0 < base && base + HEADER <= lo < WRAP
      ensures Represents() && Ready(h)
      ensures h == Heap(base, lo, lo, [], map[], {}, 0) && this.replies == replies && this.scaled == scaled
      ensures calls == 0
    {
      this.base, heapBase, this.scaled, this.replies := base, lo, scaled, replies;
      next, size, nextFree, brk, calls, wrote := map[], map[], NULL, lo, 0, {};
      h := Heap(base, lo, lo, [], map[], {}, 0);
    }

    /** The search of `free`: wherever the rover stands, it ends at the one place for the block. */
    method FindPlace(m: nat) returns (header: nat)
      requires Represents() && h.list != [] && base < m && m !in h.list
      ensures header == h.list[Slot(h.list, m)]
    {
      ghost var list := h.list;
      ghost var slot := Slot(list, m);
      ghost var k := h.rover;
      header := nextFree;
      RingAt(list, next, k);
      while !(header < m < next[header])
        invariant 0 <= k < |list| && header == list[k] && header in next && next[header] == Next(list, k)
        decreases Steps(|list|, k, slot)
      {
        SlotIsUnique(list, m, k);
        if header >= next[header] && (m > header || m < next[header]) {
          break;
        }
        header := next[header];
        k := NextIndex(|list|, k);
        RingAt(list, next, k);
      }
      SlotIsUnique(list, m, k);
    }

    /** The two coalescing steps of `free`, upwards and then downwards, as field writes. */
    method Coalesce(header: nat, m: nat)
      requires header in next && header in size && m in size && header != m
      requires next[header] in next && next[header] in size && next[header] != m
      modifies this`next, this`size, this`wrote
      ensures wrote == old(wrote) + {m, header} && Logged(old(Memory()), Memory(), old(wrote), wrote)
      ensures var above := old(next)[header];
        var up, down := Reach(m, old(size)[m], scaled) == above, Reach(header, old(size)[header], scaled) == m;
        var after := if up then old(next)[above] else above;
        && size == MergedSizes(old(size), header, m, above, up, down)
        && next == old(next)[m := after][header := if down then after else m]
    {
      wrote := wrote + {m, header};
      var above := next[header];
      if Reach(m, size[m], scaled) == above {
        size := size[m := size[m] + size[above]];
        next := next[m := next[above]];
      } else {
        next := next[m := above];
      }
      if Reach(header, size[header], scaled) == m {
        size := size[header := size[header] + size[m]];
        next := next[header := next[m]];
      } else {
        next := next[header := m];
      }
    }

    /** The block goes back to the free list and is merged with its neighbours where the tests say so. */
    method FreeHeader(m: nat)
      requires Represents() && Freeable(h, m) && base < m && m !in h.list
      modifies this`next, this`size, this`nextFree, this`h, this`wrote
      ensures h == Release(old(h), m, scaled)
      ensures size == h.size && Ring(h.list, next) && h.rover < |h.list| && nextFree == h.list[h.rover]
      ensures m in next && next[m] == LinkAfter(old(h), m, scaled) && nextFree == old(h).list[Slot(old(h).list, m)]
      ensures wrote == old(wrote) + {m, old(h).list[Slot(old(h).list, m)]}
      ensures Logged(old(Memory()), Memory(), old(wrote), wrote)
    {
      var header := FindPlace(m);
      ghost var list, i := h.list, Slot(h.list, m);
      RingLinks(list, next, i);
      RingSpliced(list, next, m, MergesUp(h, m, scaled), MergesDown(h, m, scaled));
      Coalesce(header, m);
      nextFree := header;
      h := Release(h, m, scaled);
    }

    /** `free` for a live block of a heap in good order. */
    method Free(block: nat)
      requires Represents() && Inv(h) && block >= HEADER && block - HEADER in h.live
      modifies this`next, this`size, this`nextFree, this`h, this`wrote
      ensures Released(old(h), h, block - HEADER, scaled) && LinkLeft(old(h), next, block - HEADER, scaled)
      ensures Inv(h) <==> SoundRelease(old(h), block - HEADER, scaled)
      ensures Inv(h) ==> Represents()
      ensures NextBelow(old(h).list, block - HEADER, nextFree)
      ensures Logged(old(Memory()), Memory(), {}, wrote) && forall x :: x in wrote ==> MayWrite(old(h), h, x)
    {
      hide Tiling, Release;
      wrote := {};
      FreedFacts(h, block - HEADER, scaled);
      SlotIsBelow(h, block - HEADER);
      FreeHeader(block - HEADER);
    }

    /**
     The break moves by the increment, in 32 bits, or the request is refused with -1: for want of
     blocks, or because the new break lies below the heap.
     */
    method Sbrk(increment: nat) returns (p: int)
      modifies this`brk, this`replies, this`calls
      ensures replies == Rest(old(replies)) && calls == old(calls) + 1
      ensures if Reply(old(replies)) && (old(brk) + increment) % WRAP >= heapBase
        then p == old(brk) && brk == (old(brk) + increment) % WRAP
        else p == -1 && brk == old(brk)
    {
      calls := calls + 1;
      var granted := |replies| > 0 && replies[0];
      if |replies| > 0 { replies := replies[1..]; }
      var target := (brk + increment) % WRAP;
      if granted && target >= heapBase {
        p := brk;
        brk := target;
      } else {
        p := -1;
      }
    }

    /** Get a region from sbrk and give it a header, or return -1. */
    method Obtain(alloc: nat) returns (p: int)
      requires Represents() && h.list != []
      modifies this`size, this`brk, this`replies, this`h, this`calls, this`wrote
      ensures Represents()
      ensures replies == Rest(old(replies)) && calls == old(calls) + 1
      ensures if Granted(old(h), alloc, Reply(old(replies)))
        then p == old(h).brk && h == Extend(old(h), Request(alloc)) && wrote == old(wrote) + {old(h).brk}
        else p == -1 && h == old(h) && wrote == old(wrote)
      ensures Logged(old(Memory()), Memory(), old(wrote), wrote)
    {
      var bytes := (alloc + HEADER) % WRAP;
      if bytes < MIN_REQUEST {
        bytes := MIN_REQUEST;
      }
      ghost var brk0 := brk;
      p := Sbrk(bytes);
      if p != -1 {
        size := size[p := bytes];
        wrote := wrote + {brk0};
        h := Extend(h, bytes);
      }
    }

    /** Get a region from sbrk and put it into the free list; none if sbrk refuses. */
    method Morecore(alloc: nat) returns (block: Option<nat>)
      requires Represents() && h.list != []
      requires Granted(h, alloc, Reply(replies)) ==> CanGrow(h, alloc, scaled)
      modifies this
      ensures Represents()
      ensures replies == Rest(old(replies)) && calls == old(calls) + 1
      ensures Follows(old(h), h) && WroteWithin(old(h), old(wrote), wrote)
      ensures Logged(old(Memory()), Memory(), old(wrote), wrote)
      ensures if Granted(old(h), alloc, Reply(old(replies)))
        then CanGrow(old(h), alloc, scaled) && block == Some(old(h).brk) && h == Grown(old(h), alloc, scaled)
          && block.value in next && next[block.value] == base
        else block == None && h == old(h)
    {
      hide Ring, Tiling;
      ghost var h0, f0, w0 := h, Memory(), wrote;
      var p := Obtain(alloc);
      if p == -1 {
        return None;
      }
      DonationFacts(h0, alloc, scaled);
      ghost var f1, w1 := Memory(), wrote;
      GrowthFollows(h0, alloc, scaled);
      FreeHeader(p);
      LoggedTwice(f0, f1, Memory(), w0, w1, wrote);
      return Some(p);
    }

    /** A block that fits is unlinked if it is used up, otherwise its upper end is split off. */
    method Take(prev: nat, header: nat, alloc: nat, ghost k: nat) returns (block: nat)
      requires Represents() && 0 < k < |h.list| && prev == h.list[k - 1] && header == h.list[k]
      requires Fits(h, alloc, k) && 0 < alloc
      modifies this`next, this`size, this`nextFree, this`h, this`wrote
      ensures Represents()
      ensures h == Serve(old(h), k, alloc) && block == Served(old(h), k, alloc)
      ensures nextFree == prev && block == header + (old(size)[header] - alloc)
      ensures wrote <= old(wrote) + {prev, header, block} && Logged(old(Memory()), Memory(), old(wrote), wrote)
    {
      ghost var h0 := h;
      RingAt(h.list, next, k);
      block := header;
      if size[header] == alloc {
        RingRemove(h.list, next, k);
        RemoveAtFacts(h.list, k);
        next := next[prev := next[header]];
        wrote := wrote + {prev};
      } else {
        size := size[header := size[header] - alloc];
        block := header + size[header];
        size := size[block := alloc];
        wrote := wrote + {header, block};
      }
      nextFree := prev;
      h := Serve(h0, k, alloc);
    }

    /**
     Allocate nbytes, or return NULL. The search ends although `morecore` does not return to the
     rover; sbrk is asked as often as the specification says, which is at most twice. The next search
     begins behind the header before the block that served this one.
     */
    method Malloc(nbytes: nat) returns (p: nat, ghost s: MallocProofs.Search)
      requires Represents() && nbytes + 2 * HEADER < WRAP && Planned(h, nbytes + HEADER, replies, scaled).Some?
      modifies this
      ensures Represents() && old(calls) <= calls
      ensures Planned(old(h), nbytes + HEADER, old(replies), scaled) == Some(Plan(h, calls - old(calls), p))
      ensures calls - old(calls) <= 2
      ensures SearchOf(old(h), nbytes + HEADER, old(replies), scaled, s) && LeavesOff(s, nbytes + HEADER, nextFree, p)
      ensures Logged(old(Memory()), Memory(), {}, wrote) && forall x :: x in wrote ==> MayWrite(old(h), h, x)
    {
      hide Planned, SearchOf, LeavesOff;
      var alloc := (nbytes + HEADER) % WRAP;
      assert alloc == nbytes + HEADER;
      p, s := Allocate(alloc);
    }

    method Allocate(alloc: nat) returns (p: nat, ghost s: MallocProofs.Search)
      requires Represents() && Planned(h, alloc, replies, scaled).Some?
      modifies this
      ensures Represents() && old(calls) <= calls <= old(calls) + 2
      ensures Planned(old(h), alloc, old(replies), scaled) == Some(Plan(h, calls - old(calls), p))
      ensures SearchOf(old(h), alloc, old(replies), scaled, s) && LeavesOff(s, alloc, nextFree, p)
      ensures Logged(old(Memory()), Memory(), {}, wrote) && forall x :: x in wrote ==> MayWrite(old(h), h, x)
    {
      hide Searched, Hunt, SafeFrom, Inv, Ready;
      ghost var h0, r0, f0, asked := h, replies, Memory(), 0;
      CallHunts(h0, alloc, r0, scaled, asked);
      wrote := {};
      Start();
      ghost var f1, w1 := Memory(), wrote;
      p, s := Search(alloc, asked);
      CallEnds(h0, alloc, r0, scaled, s);
      LoggedTwice(f0, f1, Memory(), {}, w1, wrote);
    }

    /** The first call makes a ring of the static header alone. */
    method Start()
      requires Represents()
      modifies this`next, this`size, this`nextFree, this`h, this`wrote
      ensures Represents() && h == Started(old(h))
      ensures wrote <= old(wrote) + {base} && Logged(old(Memory()), Memory(), old(wrote), wrote)
    {
      if nextFree == NULL {
        wrote := wrote + {base};
        next := next[base := base];
        size := size[base := 0];
        nextFree := base;
        h := Started(h);
      }
    }

    /** The search and the cut, once there is a list. */
    method Search(alloc: nat, ghost asked: nat) returns (p: nat, ghost s: MallocProofs.Search)
      requires Represents() && h.list != [] && 0 < alloc
      requires SafeFrom(h, NextIndex(|h.list|, h.rover), alloc, replies, scaled)
      modifies this
      ensures Represents()
      ensures s == Hunt(old(h), NextIndex(|old(h).list|, old(h).rover), alloc, old(replies), scaled, asked)
      ensures s.at.None? ==> h == s.heap && p == NULL
      ensures s.at.Some? ==> 0 < s.at.value < |s.heap.list| && Fits(s.heap, alloc, s.at.value)
      ensures s.at.Some? ==>
        h == HeapModel.Serve(s.heap, s.at.value, alloc) && p == Served(s.heap, s.at.value, alloc) + HEADER
      ensures LeavesOff(s, alloc, nextFree, p)
      ensures s.asked == asked + (calls - old(calls))
      ensures Logged(old(Memory()), Memory(), old(wrote), wrote)
      ensures forall x :: x in wrote ==> x in old(wrote) || x in old(h).list || x >= old(h).brk || p == x + HEADER
    {
      ghost var f0, w0 := Memory(), wrote;
      var header, prev;
      header, prev, s := Find(alloc, asked);
      if header == None {
        return NULL, s;
      }
      ghost var f1, w1 := Memory(), wrote;
      p := Take(prev, header.value, alloc, s.at.value);
      LoggedTwice(f0, f1, Memory(), w0, w1, wrote);
      p := p + HEADER;
    }

    /** The header at p does not fit: if the search is back at the rover, `morecore` takes its place. */
    method StepOver(p: nat, alloc: nat, ghost k: nat, ghost asked: nat) returns (at: Option<nat>, ghost k': nat,
        ghost asked': nat)
      requires Represents() && k < |h.list| && p == h.list[k] && !Fits(h, alloc, k)
      requires SafeFrom(h, k, alloc, replies, scaled)
      modifies this
      ensures Represents()
      ensures at == None ==> Hunt(old(h), k, alloc, old(replies), scaled, asked) == MallocProofs.Search(h, None, asked')
      ensures at.Some? ==>
        k' < |h.list| && at.value in next && next[at.value] == h.list[k'] && (k' > 0 ==> at.value == h.list[k' - 1])
      ensures at.Some? ==> SafeFrom(h, k', alloc, replies, scaled)
      ensures at.Some? ==>
        Hunt(old(h), k, alloc, old(replies), scaled, asked) == Hunt(h, k', alloc, replies, scaled, asked')
      ensures at == None || |replies| < |old(replies)|
        || (|replies| == |old(replies)| && Steps(|h.list|, k', h.rover) < Steps(|old(h).list|, k, old(h).rover))
      ensures asked' - asked == calls - old(calls)
      ensures Follows(old(h), h) && WroteWithin(old(h), old(wrote), wrote)
      ensures Logged(old(Memory()), Memory(), old(wrote), wrote)
    {
      if p == nextFree {
        assert k == h.rover;
        at := Morecore(alloc);
        k', asked' := 0, asked + 1;
      } else {
        StepsShift(|h.list|, k, h.rover);
        RingAt(h.list, next, k);
        at, k', asked' := Some(p), NextIndex(|h.list|, k), asked;
      }
    }

    /** The search of `malloc`, starting behind the rover: the header that fits and the one before it. */
    method Find(alloc: nat, ghost before: nat) returns (header: Option<nat>, prev: nat, ghost s: MallocProofs.Search)
      requires Represents() && h.list != []
      requires SafeFrom(h, NextIndex(|h.list|, h.rover), alloc, replies, scaled)
      modifies this
      ensures Represents()
      ensures s == Hunt(old(h), NextIndex(|old(h).list|, old(h).rover), alloc, old(replies), scaled, before)
      ensures h == s.heap && (header == None <==> s.at == None)
      ensures header.Some? ==> 0 < s.at.value < |h.list| && Fits(h, alloc, s.at.value)
      ensures header.Some? ==> prev == h.list[s.at.value - 1] && header.value == h.list[s.at.value]
      ensures s.asked == before + (calls - old(calls))
      ensures Follows(old(h), h) && WroteWithin(old(h), old(wrote), wrote)
      ensures Logged(old(Memory()), Memory(), old(wrote), wrote)
    {
      ghost var h0, f0, w0, c0 := h, Memory(), wrote, calls;
      ghost var k, asked := NextIndex(|h.list|, h.rover), before;
      s := Hunt(h, k, alloc, replies, scaled, asked);
      RingAt(h.list, next, h.rover);
      prev := nextFree;
      var p := next[prev];
      while true
        invariant Represents() && 0 <= k < |h.list| && p == h.list[k]
        invariant k > 0 ==> prev == h.list[k - 1]
        invariant SafeFrom(h, k, alloc, replies, scaled)
        invariant s == Hunt(h, k, alloc, replies, scaled, asked)
        invariant asked == before + (calls - c0)
        invariant Follows(h0, h) && WroteWithin(h0, w0, wrote) && Logged(f0, Memory(), w0, wrote)
        decreases |replies|, Steps(|h.list|, k, h.rover)
      {
        if size[p] >= alloc {
          return Some(p), prev, s;
        }
        ghost var h1, f1, w1 := h, Memory(), wrote;
        var at;
        at, k, asked := StepOver(p, alloc, k, asked);
        FollowsTwice(h0, h1, h, w0, w1, wrote);
        LoggedTwice(f0, f1, Memory(), w0, w1, wrote);
        if at == None {
          return None, prev, s;
        }
        prev := at.value;
        p := next[prev];
      }
    }
  }

  /** The address behind the header, or NULL. */
  function Pointer(block: Option<nat>): nat {
    match block
    case Some(m) => m + HEADER
    case None => NULL
  }

}
