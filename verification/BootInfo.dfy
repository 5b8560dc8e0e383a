/** The walk over the boot information, kernel/init/init/multiboot/mboot2.c, and its relocation. */
module BootInfo {
  import opened Options
  import opened Words
  import opened Multiboot2

  const NULL: nat := 0
  const ERROR_INVALID_MEMSIZE: nat := 1
  const ERROR_INVALID_MEMORY_MAP: nat := 2
  const ERROR_INVALID_BOOTSTRUCT: nat := 5
  const ERROR_ENTRY_NOT_FOUND: nat := 6

  // ----- The memory map inside its tag

  const ENTRY_SIZE: nat := 24

  datatype MmapEntry = MmapEntry(base: nat, length: nat, kind: u32)

  /** The entry in the 24 bytes from offset k of the payload on. */
  function EntryAt(payload: seq<byte>, k: nat): MmapEntry
    requires k + ENTRY_SIZE <= |payload|
  {
    MmapEntry(Read64(payload, k), Read64(payload, k + 8), Read32(payload, k + 16))
  }

  /** The payload of a map tag: entry size, entry version, entries. */
  predicate GoodMap(payload: seq<byte>) {
    |payload| >= 8 && Read32(payload, 0) >= ENTRY_SIZE
  }

  function EntryCount(payload: seq<byte>): nat
    requires GoodMap(payload)
  {
    Quotient(|payload| - 8, Read32(payload, 0))
  }

  /** n / d, counted out. */
  function Quotient(n: nat, d: nat): (q: nat)
    requires d > 0
  {
    if n < d then 0 else 1 + Quotient(n - d, d)
  }

  lemma QuotientIsDivision(n: nat, d: nat)
    requires d > 0
    ensures Quotient(n, d) == n / d
    ensures d * Quotient(n, d) <= n
  {
    var q := Quotient(n, d);
    QuotientParts(n, d);
    assert d * q == q * d;
    SameQuotient(n / d, n % d, q, n - q * d, d);
  }

  lemma {:induction false} QuotientParts(n: nat, d: nat)
    requires d > 0
    ensures 0 <= n - Quotient(n, d) * d < d
  {
    if n >= d {
      QuotientParts(n - d, d);
      OneTimesMore(Quotient(n - d, d), d);
    }
  }

  lemma OneTimesMore(q: nat, d: nat)
    ensures (1 + q) * d == q * d + d
  {
  }

  lemma SameQuotient(q: int, r: int, p: int, s: int, d: int)
    requires 0 <= r < d && 0 <= s < d && q * d + r == p * d + s
    ensures q == p
  {
    if q > p { Larger(q, p, d); } else if p > q { Larger(p, q, d); }
  }

  lemma Larger(q: int, p: int, d: int)
    requires q > p && d > 0
    ensures q * d >= p * d + d
  {
    var gap := q - p;
    assert gap * d >= d by { Scaled(gap, d); }
    assert (p + gap) * d == p * d + gap * d;
  }

  lemma Scaled(k: int, d: int)
    requires k >= 1 && d > 0
    ensures k * d >= d
  {
  }

  lemma EntriesFit(payload: seq<byte>, k: nat)
    requires GoodMap(payload) && k < EntryCount(payload)
    ensures 8 + Read32(payload, 0) * k + ENTRY_SIZE <= |payload|
    ensures 8 + ENTRY_SIZE * k + ENTRY_SIZE <= |payload|
  {
    var size, n := Read32(payload, 0), EntryCount(payload);
    QuotientIsDivision(|payload| - 8, size);
    assert size * (k + 1) <= size * n by { Monotone(size, k + 1, n); }
    assert size * (k + 1) == size * k + size;
    assert ENTRY_SIZE * k <= size * k by { Monotone(k, ENTRY_SIZE, size); }
  }

  lemma Monotone(a: nat, x: nat, y: nat)
    requires x <= y
    ensures a * x <= a * y
  {
  }

  /** What the iterator delivers for index k: it always steps by 24 bytes. */
  function Entry(payload: seq<byte>, k: nat): MmapEntry
    requires GoodMap(payload) && k < EntryCount(payload)
  {
    EntriesFit(payload, k);
    EntryAt(payload, 8 + ENTRY_SIZE * k)
  }

  /** All entries, in the order in which the iterator delivers them. */
  function Entries(payload: seq<byte>, from: nat): (s: seq<MmapEntry>)
    requires GoodMap(payload) && from <= EntryCount(payload)
    ensures |s| == EntryCount(payload) - from
    decreases EntryCount(payload) - from
  {
    if from == EntryCount(payload) then [] else [Entry(payload, from)] + Entries(payload, from + 1)
  }

  // ----- What the loader wrote

  /** An entry as the loader writes it: base, length, type and a reserved word. */
  function EncodeEntry(e: MmapEntry): (s: seq<byte>)
    requires InMap(e)
    ensures |s| == ENTRY_SIZE
  {
    Le(e.base, 8) + Le(e.length, 8) + Le32(e.kind) + Le32(0)
  }

  predicate InMap(e: MmapEntry) {
    e.base < 0x1_0000_0000_0000_0000 && e.length < 0x1_0000_0000_0000_0000
  }

  function EncodeEntries(entries: seq<MmapEntry>): (s: seq<byte>)
    requires forall e :: e in entries ==> InMap(e)
    ensures |s| == ENTRY_SIZE * |entries|
  {
    if entries == [] then [] else EncodeEntry(entries[0]) + EncodeEntries(entries[1..])
  }

  /** The payload of a map with entries of 24 bytes. */
  function EncodeMap(entries: seq<MmapEntry>, version: u32): seq<byte>
    requires forall e :: e in entries ==> InMap(e)
  {
    Le32(24) + Le32(version) + EncodeEntries(entries)
  }

  lemma EightBytes()
    ensures Power256(8) == 0x1_0000_0000_0000_0000
  {
    assert Power256(4) == 0x1_0000_0000;
    assert Power256(6) == 0x1_0000_0000_0000;
  }

  /** Read k delivers the base, the length and the type that the loader wrote there, in this order. */
  lemma ReadDeliversEntry(payload: seq<byte>, k: nat, base: nat, length: nat, kind: u32)
    requires GoodMap(payload) && k < EntryCount(payload)
    requires base < 0x1_0000_0000_0000_0000 && length < 0x1_0000_0000_0000_0000
    requires |payload| >= 8 + 24 * k + 20
    requires payload[8 + 24 * k..8 + 24 * k + 20] == Le(base, 8) + Le(length, 8) + Le32(kind)
    ensures Advance(payload, k) == (Some(MmapEntry(base, length, kind)), k + 1)
  {
    hide Quotient;
    EntriesFit(payload, k);
    ReadsEntry(payload, 8 + 24 * k, Le(base, 8), Le(length, 8), Le32(kind));
    EightBytes();
    ValueOfLe(base, 8);
    ValueOfLe(length, 8);
    FourBytes();
    ValueOfLe(kind, 4);
  }

  lemma ReadsEntry(payload: seq<byte>, a: nat, base: seq<byte>, length: seq<byte>, kind: seq<byte>)
    requires a + ENTRY_SIZE <= |payload| && |base| == |length| == 8 && |kind| == 4
    requires payload[a..a + 20] == base + length + kind
    ensures Value(kind) < MODULUS
    ensures EntryAt(payload, a) == MmapEntry(Value(base), Value(length), Value(kind))
  {
    hide Value;
    var s := base + length + kind;
    FourBytes();
    ValueFits(kind);
    Within(payload, a, s, 0, 8);
    Within(payload, a, s, 8, 16);
    Within(payload, a, s, 16, 20);
    assert s[0..8] == base && s[8..16] == length && s[16..20] == kind;
  }

  lemma {:induction false} EntryInEncoding(entries: seq<MmapEntry>, k: nat)
    requires (forall e :: e in entries ==> InMap(e)) && k < |entries|
    ensures EncodeEntries(entries)[24 * k..24 * k + 24] == EncodeEntry(entries[k])
  {
    var s, rest := EncodeEntries(entries), EncodeEntries(entries[1..]);
    if k == 0 {
      assert s[0..24] == EncodeEntry(entries[0]);
    } else {
      EntryInEncoding(entries[1..], k - 1);
      assert s[24 * k..24 * k + 24] == rest[24 * (k - 1)..24 * (k - 1) + 24];
    }
  }

  lemma EntryInMap(entries: seq<MmapEntry>, version: u32, k: nat)
    requires (forall e :: e in entries ==> InMap(e)) && k < |entries|
    ensures var (payload, e) := (EncodeMap(entries, version), entries[k]);
      && |payload| == 8 + 24 * |entries| && e in entries
      && payload[8 + 24 * k..8 + 24 * k + 20] == Le(e.base, 8) + Le(e.length, 8) + Le32(e.kind)
  {
    var payload, s, e := EncodeMap(entries, version), EncodeEntries(entries), entries[k];
    hide EncodeEntries;
    EntryInEncoding(entries, k);
    assert payload[8..8 + |s|] == s;
    Within(payload, 8, s, 24 * k, 24 * k + 24);
    Within(payload, 8 + 24 * k, EncodeEntry(e), 0, 20);
    assert EncodeEntry(e)[0..20] == Le(e.base, 8) + Le(e.length, 8) + Le32(e.kind);
  }

  /** The iterator reads back the map that the loader wrote. */
  lemma MapRoundTrips(entries: seq<MmapEntry>, version: u32)
    requires forall e :: e in entries ==> InMap(e)
    ensures var payload := EncodeMap(entries, version);
      GoodMap(payload) && EntryCount(payload) == |entries| && Entries(payload, 0) == entries
  {
    hide EncodeEntries, EncodeEntry, Entries;
    var payload, n := EncodeMap(entries, version), |entries|;
    assert payload[0..4] == Le32(24);
    ReadsBack(payload, 0, 24);
    QuotientIsDivision(24 * n, 24);
    forall k | 0 <= k < n ensures Entry(payload, k) == entries[k] {
      EntryInMap(entries, version, k);
      ReadDeliversEntry(payload, k, entries[k].base, entries[k].length, entries[k].kind);
    }
    EntriesAre(payload, entries, 0);
    assert entries[0..] == entries;
  }

  lemma {:induction false} EntriesAre(payload: seq<byte>, entries: seq<MmapEntry>, from: nat)
    requires GoodMap(payload) && EntryCount(payload) == |entries| && from <= |entries|
    requires forall k :: 0 <= k < |entries| ==> Entry(payload, k) == entries[k]
    ensures Entries(payload, from) == entries[from..]
    decreases |entries| - from
  {
    if from < |entries| { EntriesAre(payload, entries, from + 1); }
  }

  // ----- What the iterator makes of other entry sizes

  /** Whatever the loader's entries hold, those that the iterator delivers are theirs. */
  ghost predicate Delivers(size: u32, n: nat) {
    forall payload :: MapOf(payload, size, n) ==> TheirEntries(payload)
  }

  /** The payload of a map with n entries of the given size. */
  ghost predicate MapOf(payload: seq<byte>, size: u32, n: nat) {
    GoodMap(payload) && Read32(payload, 0) == size && EntryCount(payload) == n
  }

  ghost predicate TheirEntries(payload: seq<byte>)
    requires GoodMap(payload)
  {
    forall k {:trigger Entry(payload, k)} :: 0 <= k < EntryCount(payload) ==>
      Entry(payload, k) == TheirEntry(payload, k)
  }

  /** Entry k where the loader put it. */
  function TheirEntry(payload: seq<byte>, k: nat): MmapEntry
    requires GoodMap(payload) && k < EntryCount(payload)
  {
    EntriesFit(payload, k);
    EntryAt(payload, 8 + Read32(payload, 0) * k)
  }

  /** A map with entries of size bytes and a single 1 among zeros, where the iterator looks for its second entry. */
  function OneByteSet(size: u32, n: nat): (payload: seq<byte>)
    ensures |payload| == 8 + n * size
  {
    Le32(size) + seq(4, _ => 0) + seq(n * size, i => if i == ENTRY_SIZE then 1 else 0)
  }

  lemma OneByteMap(size: u32, n: nat)
    requires size >= ENTRY_SIZE
    ensures MapOf(OneByteSet(size, n), size, n)
  {
    var payload := OneByteSet(size, n);
    assert payload[0..4] == Le32(size);
    ReadsBack(payload, 0, size);
    QuotientIsDivision(n * size, size);
    SameQuotient(n * size / size, n * size % size, n, 0, size);
  }

  lemma {:induction false} AllZero(s: seq<byte>)
    requires forall i :: 0 <= i < |s| ==> s[i] == 0
    ensures Value(s) == 0
  {
    if s != [] { AllZero(s[1..]); }
  }

  lemma SecondEntryDiffers(size: u32, n: nat)
    requires ENTRY_SIZE < size && n > 1
    ensures MapOf(OneByteSet(size, n), size, n) && !TheirEntries(OneByteSet(size, n))
  {
    OneByteMap(size, n);
    var payload, one := OneByteSet(size, n), 1;
    EntriesFit(payload, one);
    var mine, theirs := payload[8 + ENTRY_SIZE..8 + ENTRY_SIZE + 8], payload[8 + size..8 + size + 8];
    assert mine[0] == payload[8 + ENTRY_SIZE] == 1;
    forall i | 0 <= i < 8 ensures theirs[i] == 0 { assert theirs[i] == payload[8 + size + i]; }
    AllZero(theirs);
    assert Entry(payload, one).base > 0 && TheirEntry(payload, one).base == 0;
  }

  lemma SamePlace(payload: seq<byte>, k: nat)
    requires GoodMap(payload) && k < EntryCount(payload) && (Read32(payload, 0) == ENTRY_SIZE || k == 0)
    ensures Entry(payload, k) == TheirEntry(payload, k)
  {
    EntriesFit(payload, k);
  }

  /**
   The iterator, which always steps by 24 bytes, delivers the loader's entries if and only if they
   are 24 bytes long, or there is no second one; else there is a map on which it does not.
   */
  lemma EntriesAreFoundIff(size: u32, n: nat)
    requires size >= ENTRY_SIZE
    ensures Delivers(size, n) <==> size == ENTRY_SIZE || n <= 1
  {
    if size == ENTRY_SIZE || n <= 1 {
      forall payload | MapOf(payload, size, n) ensures TheirEntries(payload) {
        forall k | 0 <= k < EntryCount(payload) ensures Entry(payload, k) == TheirEntry(payload, k) {
          SamePlace(payload, k);
        }
      }
    } else {
      SecondEntryDiffers(size, n);
    }
  }

  // ----- The ascending copy

  /** The remainder of i divided by d. */
  function Wrapped(i: nat, d: nat): (r: nat)
    requires d > 0
    ensures r < d && r <= i
  {
    if i < d then i else Wrapped(i - d, d)
  }

  /** Where the byte that an ascending copy puts at offset i came from. */
  function Source(dst: nat, src: nat, count: nat, i: nat): (r: nat)
    ensures r <= i
  {
    if src < dst < src + count then Wrapped(i, dst - src) else i
  }

  /** Memory after an ascending bytewise copy, whether or not the ranges overlap. */
  ghost predicate Copied(m: seq<byte>, r: seq<byte>, dst: nat, src: nat, count: nat)
    requires src + count <= |m| && dst + count <= |m|
  {
    && |r| == |m|
    && (forall i :: 0 <= i < count ==> r[dst + i] == m[src + Source(dst, src, count, i)])
    && (forall a :: 0 <= a < |m| && !(dst <= a < dst + count) ==> r[a] == m[a])
  }

  /** The first d bytes repeated. */
  ghost predicate Periodic(s: seq<byte>, d: nat)
    requires d > 0
  {
    forall i :: 0 <= i < |s| ==> s[i] == s[Wrapped(i, d)]
  }

  /** The bytes that the copy repeats are the ones that stand there anyway. */
  ghost predicate Repeats(info: seq<byte>, dst: nat, src: nat) {
    forall i :: 0 <= i < |info| ==> info[i] == info[Source(dst, src, |info|, i)]
  }

  lemma RepeatsIff(dst: nat, src: nat, info: seq<byte>)
    ensures Repeats(info, dst, src) <==> dst <= src || src + |info| <= dst || Periodic(info, dst - src)
  {
    if src < dst < src + |info| {
      if Repeats(info, dst, src) {
        forall i | 0 <= i < |info| ensures info[i] == info[Wrapped(i, dst - src)] {
          assert info[i] == info[Source(dst, src, |info|, i)];
        }
      }
      if Periodic(info, dst - src) {
        forall i | 0 <= i < |info| ensures info[i] == info[Source(dst, src, |info|, i)] {
          assert info[i] == info[Wrapped(i, dst - src)];
        }
      }
    }
  }

  lemma CopyOfInfo(m: seq<byte>, r: seq<byte>, dst: nat, src: nat, info: seq<byte>)
    requires src + |info| <= |m| && dst + |info| <= |m| && m[src..src + |info|] == info
    requires Copied(m, r, dst, src, |info|)
    ensures r[dst..dst + |info|] == info <==> Repeats(info, dst, src)
  {
    var copy := r[dst..dst + |info|];
    forall i | 0 <= i < |info| ensures copy[i] == info[Source(dst, src, |info|, i)] {
      assert r[dst + i] == m[src + Source(dst, src, |info|, i)];
      assert m[src..src + |info|][Source(dst, src, |info|, i)] == m[src + Source(dst, src, |info|, i)];
    }
    if copy == info {
      assert forall i :: 0 <= i < |info| ==> info[i] == copy[i];
    }
  }

  /**
   Relocation to `end` plus the size of the structure keeps the boot information exactly when the
   old place does not reach into the new one from below, or the structure happens to repeat itself.
   */
  lemma RelocationKeepsInfoIff(m: seq<byte>, r: seq<byte>, p: nat, end: nat, ts: seq<Tag>, reserved: u32)
    requires Holds(m, p, ts, reserved) && end + 2 * InfoSize(ts) <= |m|
    requires Copied(m, r, end + InfoSize(ts), p, InfoSize(ts))
    ensures Holds(r, end + InfoSize(ts), ts, reserved) <==>
      p <= end || end + InfoSize(ts) <= p || Periodic(EncodeInfo(ts, reserved), end + InfoSize(ts) - p)
  {
    hide EncodeInfo, Periodic, Repeats;
    var info, dst := EncodeInfo(ts, reserved), end + InfoSize(ts);
    CopyOfInfo(m, r, dst, p, info);
    RepeatsIff(dst, p, info);
  }

  lemma {:induction false} EndsWithEndTag(ts: seq<Tag>)
    requires AllWellFormed(ts)
    ensures EncodeTags(ts)[Offset(ts, |ts|)] == 0
  {
    if ts != [] {
      EndsWithEndTag(ts[1..]);
      OffsetShifts(ts, |ts|);
    }
  }

  /** Any structure that lies 8 bytes above `end` is lost, unless its length is a multiple of 256. */
  lemma ShiftedInfoIsLost(m: seq<byte>, r: seq<byte>, end: nat, ts: seq<Tag>, reserved: u32)
    requires Holds(m, end + 8, ts, reserved) && InfoSize(ts) % 256 != 0 && end + 2 * InfoSize(ts) <= |m|
    requires Copied(m, r, end + InfoSize(ts), end + 8, InfoSize(ts))
    ensures !Holds(r, end + InfoSize(ts), ts, reserved)
  {
    var info, d := EncodeInfo(ts, reserved), InfoSize(ts) - 8;
    RelocationKeepsInfoIff(m, r, end + 8, end, ts, reserved);
    EndsWithEndTag(ts);
    assert info[d] == EncodeTags(ts)[Offset(ts, |ts|)] == 0;
    assert info[0] == Le32(InfoSize(ts))[0] == InfoSize(ts) % 256;
    assert Wrapped(d, d) == 0;
  }

  /** The structure without a tag, 8 bytes above 0, is one. */
  lemma EmptyInfoIsLost(m: seq<byte>, r: seq<byte>)
    requires m == seq(8, _ => 0) + EncodeInfo([], 0) + seq(8, _ => 0) && Copied(m, r, 16, 8, 16)
    ensures Holds(m, 8, [], 0) && !Holds(r, 16, [], 0)
  {
    assert m[8..24] == EncodeInfo([], 0);
    ShiftedInfoIsLost(m, r, 0, [], 0);
  }

  // ----- The program

  class Walker {
    const mem: array<byte>
    var mbootPtr: nat
    var currentMmapEntry: nat
    var kinitErrno: nat
    ghost var tags: seq<Tag>
    ghost var reserved: u32

    /** Either there is no boot information, or it lies at that address. */
    ghost predicate Valid()
      reads `mbootPtr, `tags, `reserved, mem
    {
      mbootPtr == NULL || Holds(mem[..], mbootPtr, tags, reserved)
    }

    constructor (mem: array<byte>, pointer: nat, ghost tags: seq<Tag>, ghost reserved: u32)
      requires pointer == NULL || Holds(mem[..], pointer, tags, reserved)
      ensures Valid() && this.mem == mem && mbootPtr == pointer && this.tags == tags && this.reserved == reserved
      ensures currentMmapEntry == 0
    {
      this.mem, mbootPtr, this.tags, this.reserved := mem, pointer, tags, reserved;
      currentMmapEntry, kinitErrno := 0, 0;
    }

    /** The address of the first tag of the given kind, or NULL if there is none. */
    method FindTag(kind: u32) returns (tag: nat, ghost i: nat)
      requires Valid() && kind != END
      modifies this`kinitErrno
      ensures mbootPtr == NULL ==> tag == NULL && kinitErrno == ERROR_INVALID_BOOTSTRUCT
      ensures mbootPtr != NULL && tag == NULL ==> Absent(tags, kind) && kinitErrno == ERROR_ENTRY_NOT_FOUND
      ensures tag != NULL ==>
        FirstOf(tags, kind, i) && tag == mbootPtr + 8 + Offset(tags, i) && Chain(mem[..], tag, tags, i)
      ensures tag != NULL ==> mbootPtr != NULL && kinitErrno == old(kinitErrno)
    {
      hide EncodeTags, Chain;
      if mbootPtr == NULL {
        kinitErrno := ERROR_INVALID_BOOTSTRUCT;
        return NULL, 0;
      }
      TagsInMemory(mem[..], mbootPtr, tags, reserved);
      TagsFormChain(mem[..], mbootPtr + 8, tags, 0);
      tag, i := WalkTags(mem[..], mbootPtr + 8, kind, tags);
      if tag == NULL {
        kinitErrno := ERROR_ENTRY_NOT_FOUND;
      }
    }

    /** The size word at the start of the structure. */
    method StructureLength() returns (length: nat)
      requires Valid()
      modifies this`kinitErrno
      ensures length == if mbootPtr == NULL then 0 else InfoSize(tags)
      ensures kinitErrno == if mbootPtr == NULL then ERROR_INVALID_BOOTSTRUCT else old(kinitErrno)
    {
      if mbootPtr == NULL {
        kinitErrno := ERROR_INVALID_BOOTSTRUCT;
        return 0;
      }
      SizeInMemory(mem[..], mbootPtr, tags, reserved);
      length := Read32(mem[..], mbootPtr);
    }

    /** It survives a move behind the kernel if it does not reach into its new place from below, or repeats itself. */
    ghost predicate Survives(kernelEnd: nat)
      requires Valid() && mbootPtr != NULL
      reads `mbootPtr, `tags, `reserved, mem
    {
      var dest := kernelEnd + InfoSize(tags);
      mbootPtr <= kernelEnd || dest <= mbootPtr || Periodic(EncodeInfo(tags, reserved), dest - mbootPtr)
    }

    /** The structure moves behind the kernel; whether it survives depends on where it was. */
    method Relocate(kernelEnd: nat)
      requires Valid() && mbootPtr != NULL && kernelEnd + 2 * InfoSize(tags) <= mem.Length
      modifies this`mbootPtr, this`kinitErrno, mem
      ensures mbootPtr == kernelEnd + InfoSize(tags) && kinitErrno == old(kinitErrno)
      ensures Copied(old(mem[..]), mem[..], mbootPtr, old(mbootPtr), InfoSize(tags))
      ensures Valid() <==> old(Survives(kernelEnd))
    {
      ghost var m := mem[..];
      var size := StructureLength();
      var dest := kernelEnd + size;
      Memcpy(mem, dest, mbootPtr, size);
      RelocationKeepsInfoIff(m, mem[..], mbootPtr, kernelEnd, tags, reserved);
      mbootPtr := dest;
    }

    /** Lower and upper memory in kilobytes, added up in 32 bits; none if the tag is missing. */
    method GetMemorySize() returns (kilobytes: Option<u32>, ghost i: nat)
      requires Valid() && (forall k: nat :: FirstOf(tags, MEMORY_SIZE, k) ==> |tags[k].payload| >= 8)
      modifies this`kinitErrno
      ensures kilobytes == None ==>
        (mbootPtr == NULL || Absent(tags, MEMORY_SIZE)) && kinitErrno == ERROR_ENTRY_NOT_FOUND
      ensures kilobytes.Some? ==> mbootPtr != NULL && FirstOf(tags, 4, i) && |tags[i].payload| >= 8
      ensures kilobytes.Some? ==> kilobytes.value == (Read32(tags[i].payload, 0) + Read32(tags[i].payload, 4)) % MODULUS
    {
      var tag;
      tag, i := FindTag(MEMORY_SIZE);
      if tag == NULL {
        kinitErrno := ERROR_ENTRY_NOT_FOUND;
        return None, i;
      }
      var sum := ReadMemorySize(mem[..], tag, tags[i].payload);
      kilobytes := Some(sum);
    }

    /** The next entry of the memory map, or none when there is no map or all entries have been read. */
    method NextMmap() returns (entry: Option<MmapEntry>, ghost i: nat)
      requires Valid() && (forall k: nat :: FirstOf(tags, MEMORY_MAP, k) ==> GoodMap(tags[k].payload))
      modifies this`kinitErrno, this`currentMmapEntry
      ensures mbootPtr == NULL || Absent(tags, MEMORY_MAP) ==>
        entry == None && currentMmapEntry == old(currentMmapEntry) && kinitErrno == ERROR_ENTRY_NOT_FOUND
      ensures mbootPtr != NULL && !Absent(tags, MEMORY_MAP) ==> FirstOf(tags, 6, i) && GoodMap(tags[i].payload)
      ensures mbootPtr != NULL && !Absent(tags, MEMORY_MAP) ==>
        (entry, currentMmapEntry) == Advance(tags[i].payload, old(currentMmapEntry))
    {
      hide GoodMap;
      var tag;
      tag, i := FindTag(MEMORY_MAP);
      if tag == NULL {
        kinitErrno := ERROR_ENTRY_NOT_FOUND;
        return None, i;
      }
      entry := ReadMap(mem[..], tag, currentMmapEntry, tags[i].payload);
      if entry.Some? {
        currentMmapEntry := currentMmapEntry + 1;
      }
    }

    /** Both required tags are there, or the error says which one is missing. */
    method CheckTags() returns (result: int)
      requires Valid()
      modifies this`kinitErrno
      ensures result == if mbootPtr != NULL && !Absent(tags, MEMORY_SIZE) && !Absent(tags, MEMORY_MAP) then 0 else -1
      ensures result == -1 ==>
        kinitErrno == if mbootPtr == NULL then ERROR_INVALID_BOOTSTRUCT
          else if Absent(tags, MEMORY_SIZE) then ERROR_INVALID_MEMSIZE else ERROR_INVALID_MEMORY_MAP
    {
      ghost var i;
      var required := [(MEMORY_SIZE, ERROR_INVALID_MEMSIZE), (MEMORY_MAP, ERROR_INVALID_MEMORY_MAP)];
      var k := 0;
      while k < 2
        invariant 0 <= k <= 2 && kinitErrno == old(kinitErrno)
        invariant k > 0 ==> mbootPtr != NULL && !Absent(tags, MEMORY_SIZE)
        invariant k > 1 ==> !Absent(tags, MEMORY_MAP)
      {
        var tag;
        tag, i := FindTag(required[k].0);
        if tag == NULL {
          if kinitErrno != ERROR_INVALID_BOOTSTRUCT {
            kinitErrno := required[k].1;
          }
          return -1;
        }
        k := k + 1;
      }
      result := 0;
    }
  }

  method ReadMemorySize(m: seq<byte>, tag: nat, ghost payload: seq<byte>) returns (sum: u32)
    requires tag + 8 + |payload| <= |m| && m[tag + 8..tag + 8 + |payload|] == payload && |payload| >= 8
    ensures sum == (Read32(payload, 0) + Read32(payload, 4)) % MODULUS
  {
    WordInPayload(m, tag, payload, 0);
    WordInPayload(m, tag, payload, 4);
    var lower: int, upper: int := Read32(m, tag + 8), Read32(m, tag + 12);
    sum := (lower + upper) % MODULUS;
  }

  /** Entry `current` of the map in the tag at address tag, if there are that many. */
  method ReadMap(m: seq<byte>, tag: nat, current: nat, ghost payload: seq<byte>) returns (entry: Option<MmapEntry>)
    requires tag + 8 + |payload| <= |m| && m[tag + 8..tag + 8 + |payload|] == payload
    requires Read32(m, tag + 4) == 8 + |payload| && GoodMap(payload)
    ensures entry == Advance(payload, current).0
  {
    WordInPayload(m, tag, payload, 0);
    var size: int, entrySize: int := Read32(m, tag + 4), Read32(m, tag + 8);
    var entries := (size - 16) / entrySize;
    QuotientIsDivision(|payload| - 8, entrySize);
    if current < entries {
      EntriesFit(payload, current);
      EntryInPayload(m, tag, payload, 8 + ENTRY_SIZE * current);
      return Some(EntryAt(m, tag + 16 + ENTRY_SIZE * current));
    }
    entry := None;
  }

  /** One step of the iterator over a map. */
  function Advance(payload: seq<byte>, current: nat): (Option<MmapEntry>, nat)
    requires GoodMap(payload)
  {
    if current < EntryCount(payload) then (Some(Entry(payload, current)), current + 1) else (None, current)
  }

  /** What n calls of the iterator deliver. */
  function Delivered(payload: seq<byte>, current: nat, n: nat): seq<Option<MmapEntry>>
    requires GoodMap(payload)
    decreases n
  {
    if n == 0 then [] else [Advance(payload, current).0] + Delivered(payload, Advance(payload, current).1, n - 1)
  }

  /** Each entry comes exactly once, in order, and after the last one nothing comes for ever. */
  lemma {:induction false} EntriesComeOnce(payload: seq<byte>, current: nat, n: nat, k: nat)
    requires GoodMap(payload) && k < n && current <= EntryCount(payload)
    ensures |Delivered(payload, current, n)| == n
    ensures Delivered(payload, current, n)[k] ==
      if current + k < EntryCount(payload) then Some(Entry(payload, current + k)) else None
    decreases n
  {
    var next := Advance(payload, current).1;
    if n > 1 { EntriesComeOnce(payload, next, n - 1, if k > 0 then k - 1 else 0); }
  }

  lemma WordInPayload(m: seq<byte>, a: nat, payload: seq<byte>, k: nat)
    requires a + 8 + |payload| <= |m| && m[a + 8..a + 8 + |payload|] == payload && k + 4 <= |payload|
    ensures Read32(m, a + 8 + k) == Read32(payload, k)
  {
    Within(m, a + 8, payload, k, k + 4);
  }

  lemma EntryInPayload(m: seq<byte>, a: nat, payload: seq<byte>, k: nat)
    requires a + 8 + |payload| <= |m| && m[a + 8..a + 8 + |payload|] == payload && k + ENTRY_SIZE <= |payload|
    ensures EntryAt(m, a + 8 + k) == EntryAt(payload, k)
  {
    Within(m, a + 8, payload, k, k + 8);
    Within(m, a + 8, payload, k + 8, k + 16);
    Within(m, a + 8, payload, k + 16, k + 20);
  }

  /** The bytewise ascending copy. */
  method Memcpy(mem: array<byte>, dst: nat, src: nat, count: nat)
    requires dst + count <= mem.Length && src + count <= mem.Length
    modifies mem
    ensures Copied(old(mem[..]), mem[..], dst, src, count)
  {
    ghost var m := mem[..];
    var i := 0;
    while i < count
      invariant 0 <= i <= count
      invariant forall k :: 0 <= k < i ==> mem[dst + k] == m[src + Source(dst, src, count, k)]
      invariant forall a :: 0 <= a < mem.Length && !(dst <= a < dst + i) ==> mem[a] == m[a]
    {
      if src < dst < src + count && i >= dst - src {
        assert Source(dst, src, count, i) == Source(dst, src, count, i - (dst - src));
        assert mem[src + i] == mem[dst + (i - (dst - src))];
      }
      mem[dst + i] := mem[src + i];
      i := i + 1;
    }
  }

  lemma PaddedSize(n: nat)
    ensures (8 + n + 7) / 8 * 8 == 8 + n + Padding(n)
  {
  }

  /** The loop over the tags: it stays inside the structure and stops at the first tag of the kind or at the end tag. */
  method WalkTags(m: seq<byte>, first: nat, kind: u32, ghost ts: seq<Tag>) returns (tag: nat, ghost i: nat)
    requires Chain(m, first, ts, 0) && kind != END && first > 0
    ensures tag == NULL ==> Absent(ts, kind)
    ensures tag != NULL ==> FirstOf(ts, kind, i) && tag == first + Offset(ts, i) && Chain(m, tag, ts, i)
  {
    tag, i := first, 0;
    while Read32(m, tag) != END
      invariant i <= |ts| && tag == first + Offset(ts, i) && Chain(m, tag, ts, i)
      invariant forall j :: 0 <= j < i ==> ts[j].kind != kind
      decreases |ts| - i
    {
      if Read32(m, tag) == kind {
        return;
      }
      PaddedSize(|ts[i].payload|);
      var size: nat := Read32(m, tag + 4);
      tag := tag + (size + 7) / 8 * 8;
      i := i + 1;
    }
    tag := NULL;
  }
}
