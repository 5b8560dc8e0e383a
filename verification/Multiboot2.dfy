/**
 The layout of the boot information that a Multiboot2 loader leaves in memory: sections 3.6.1 to 3.6.8
 of the Multiboot2 Specification version 2.0.
 */
module Multiboot2 {
  import opened Words

  type byte = x: int | 0 <= x < 256

  // ----- Little-endian numbers

  /** The n lowest bytes of x, least significant first. */
  function Le(x: nat, n: nat): (s: seq<byte>)
    ensures |s| == n
  {
    if n == 0 then [] else [x % 0x100] + Le(x / 0x100, n - 1)
  }

  function Value(s: seq<byte>): nat {
    if s == [] then 0 else s[0] + 0x100 * Value(s[1..])
  }

  function Power256(n: nat): nat {
    if n == 0 then 1 else 0x100 * Power256(n - 1)
  }

  lemma {:induction false} ValueOfLe(x: nat, n: nat)
    requires x < Power256(n)
    ensures Value(Le(x, n)) == x
  {
    if n > 0 { ValueOfLe(x / 0x100, n - 1); }
  }

  lemma {:induction false} ValueFits(s: seq<byte>)
    ensures Value(s) < Power256(|s|)
  {
    if s != [] { ValueFits(s[1..]); }
  }

  lemma FourBytes()
    ensures Power256(4) == MODULUS
  {
    assert Power256(2) == 0x1_0000;
  }

  function Read32(m: seq<byte>, a: nat): u32
    requires a + 4 <= |m|
  {
    FourBytes();
    ValueFits(m[a..a + 4]);
    Value(m[a..a + 4])
  }

  function Read64(m: seq<byte>, a: nat): nat
    requires a + 8 <= |m|
  {
    Value(m[a..a + 8])
  }

  function Le32(x: u32): (s: seq<byte>)
    ensures |s| == 4
  {
    Le(x, 4)
  }

  lemma ReadsBack(m: seq<byte>, a: nat, x: u32)
    requires a + 4 <= |m| && m[a..a + 4] == Le32(x)
    ensures Read32(m, a) == x
  {
    FourBytes();
    ValueOfLe(x, 4);
  }

  /** The lowest byte comes first. */
  lemma LowByteFirst(a: byte, b: byte, c: byte, d: byte)
    ensures Le32(a + 0x100 * b + 0x1_0000 * c + 0x100_0000 * d) == [a, b, c, d]
  {
    assert Le(d, 1) == [d];
    assert Le(c + 0x100 * d, 2) == [c, d];
    assert Le(b + 0x100 * c + 0x1_0000 * d, 3) == [b, c, d];
  }

  // ----- Tags

  const END: u32 := 0
  const MEMORY_SIZE: u32 := 4
  const MEMORY_MAP: u32 := 6

  /** A tag with the bytes that follow its type and size, and the padding to the next multiple of 8. */
  datatype Tag = Tag(kind: u32, payload: seq<byte>, pad: seq<byte>)

  function Padding(n: nat): nat {
    (8 - n % 8) % 8
  }

  predicate WellFormed(t: Tag) {
    t.kind != END && |t.pad| == Padding(|t.payload|) && |t.payload| < 0x4000_0000
  }

  function EncodeTag(t: Tag): (s: seq<byte>)
    requires WellFormed(t)
    ensures |s| == TagSize(t)
  {
    Le32(t.kind) + Le32(8 + |t.payload|) + t.payload + t.pad
  }

  function TagSize(t: Tag): nat {
    8 + |t.payload| + |t.pad|
  }

  predicate AllWellFormed(ts: seq<Tag>) {
    forall t :: t in ts ==> WellFormed(t)
  }

  function EncodeTags(ts: seq<Tag>): (s: seq<byte>)
    requires AllWellFormed(ts)
    ensures |s| == Offset(ts, |ts|) + 8
  {
    if ts == [] then Le32(END) + Le32(8) else OffsetShifts(ts, |ts|); EncodeTag(ts[0]) + EncodeTags(ts[1..])
  }

  /** Where tag i begins, counted from the first tag; the end tag counts as the last one. */
  function Offset(ts: seq<Tag>, i: nat): nat
    requires i <= |ts|
  {
    if i == 0 then 0 else Offset(ts, i - 1) + TagSize(ts[i - 1])
  }

  lemma {:induction false} OffsetShifts(ts: seq<Tag>, i: nat)
    requires 0 < i <= |ts|
    ensures Offset(ts, i) == TagSize(ts[0]) + Offset(ts[1..], i - 1)
  {
    if i > 1 { OffsetShifts(ts, i - 1); }
  }

  /** The whole structure: total size, a reserved word, the tags, the end tag. */
  function EncodeInfo(ts: seq<Tag>, reserved: u32): (s: seq<byte>)
    requires AllWellFormed(ts) && InfoSize(ts) < MODULUS
    ensures |s| == InfoSize(ts)
  {
    Le32(InfoSize(ts)) + Le32(reserved) + EncodeTags(ts)
  }

  function InfoSize(ts: seq<Tag>): nat {
    16 + Offset(ts, |ts|)
  }

  /** The boot information with these tags lies at address p. */
  ghost predicate Holds(m: seq<byte>, p: nat, ts: seq<Tag>, reserved: u32) {
    && AllWellFormed(ts) && InfoSize(ts) < MODULUS
    && p + InfoSize(ts) <= |m|
    && m[p..p + InfoSize(ts)] == EncodeInfo(ts, reserved)
  }

  /** The position of the first tag of a kind. */
  ghost predicate FirstOf(ts: seq<Tag>, kind: u32, i: nat) {
    i < |ts| && ts[i].kind == kind && forall j :: 0 <= j < i ==> ts[j].kind != kind
  }

  ghost predicate Absent(ts: seq<Tag>, kind: u32) {
    forall j :: 0 <= j < |ts| ==> ts[j].kind != kind
  }

  /** A slice of a slice. */
  lemma Within(m: seq<byte>, a: nat, s: seq<byte>, i: nat, j: nat)
    requires a + |s| <= |m| && m[a..a + |s|] == s && i <= j <= |s|
    ensures m[a + i..a + j] == s[i..j]
  {
    forall k | 0 <= k < j - i ensures m[a + i..a + j][k] == s[i..j][k] {
      assert m[a..a + |s|][i + k] == s[i + k];
    }
  }

  lemma TagBytes(t: Tag, rest: seq<byte>)
    requires WellFormed(t)
    ensures var s := EncodeTag(t) + rest;
      s[0..4] == Le32(t.kind) && s[4..8] == Le32(8 + |t.payload|) && s[8..8 + |t.payload|] == t.payload
  {
  }

  /** The tags from i on lie in memory at a. */
  ghost predicate TagsAt(m: seq<byte>, a: nat, ts: seq<Tag>, i: nat) {
    && i <= |ts| && AllWellFormed(ts[i..])
    && a + |EncodeTags(ts[i..])| <= |m|
    && m[a..a + |EncodeTags(ts[i..])|] == EncodeTags(ts[i..])
  }

  lemma TagsInMemory(m: seq<byte>, p: nat, ts: seq<Tag>, reserved: u32)
    requires Holds(m, p, ts, reserved)
    ensures TagsAt(m, p + 8, ts, 0)
  {
    var info, tags := EncodeInfo(ts, reserved), EncodeTags(ts);
    assert ts[0..] == ts;
    Within(m, p, info, 8, |info|);
    assert info[8..|info|] == tags;
  }

  lemma TagAt(m: seq<byte>, a: nat, t: Tag, rest: seq<byte>)
    requires WellFormed(t) && a + TagSize(t) + |rest| <= |m|
    requires m[a..a + TagSize(t) + |rest|] == EncodeTag(t) + rest
    ensures Read32(m, a) == t.kind
    ensures Read32(m, a + 4) == 8 + |t.payload|
    ensures m[a + 8..a + 8 + |t.payload|] == t.payload
    ensures m[a + TagSize(t)..a + TagSize(t) + |rest|] == rest
  {
    var s := EncodeTag(t) + rest;
    TagBytes(t, rest);
    Within(m, a, s, 0, 4);
    Within(m, a, s, 4, 8);
    Within(m, a, s, 8, 8 + |t.payload|);
    Within(m, a, s, TagSize(t), |s|);
    assert s[TagSize(t)..|s|] == rest;
    ReadsBack(m, a, t.kind);
    ReadsBack(m, a + 4, 8 + |t.payload|);
  }

  /** The type and size words and the payload of tag i, as they are found in memory, and the step to the next tag. */
  lemma TagInMemory(m: seq<byte>, a: nat, ts: seq<Tag>, i: nat)
    requires TagsAt(m, a, ts, i) && i < |ts|
    ensures a + TagSize(ts[i]) + 8 <= |m| && WellFormed(ts[i])
    ensures Read32(m, a) == ts[i].kind
    ensures Read32(m, a + 4) == 8 + |ts[i].payload|
    ensures m[a + 8..a + 8 + |ts[i].payload|] == ts[i].payload
    ensures TagsAt(m, a + TagSize(ts[i]), ts, i + 1)
  {
    var rest := EncodeTags(ts[i..][1..]);
    assert ts[i..][0] == ts[i] && ts[i..][1..] == ts[i + 1..];
    TagAt(m, a, ts[i], rest);
  }

  lemma EndInMemory(m: seq<byte>, a: nat, ts: seq<Tag>)
    requires TagsAt(m, a, ts, |ts|)
    ensures a + 8 <= |m| && Read32(m, a) == END
  {
    assert ts[|ts|..] == [];
    EndAt(m, a, END);
  }

  lemma EndAt(m: seq<byte>, a: nat, kind: u32)
    requires a + 8 <= |m| && m[a..a + 8] == Le32(kind) + Le32(8)
    ensures Read32(m, a) == kind
  {
    var s := Le32(kind) + Le32(8);
    assert s[0..4] == Le32(kind);
    Within(m, a, s, 0, 4);
    ReadsBack(m, a, kind);
  }

  lemma SizeInMemory(m: seq<byte>, p: nat, ts: seq<Tag>, reserved: u32)
    requires Holds(m, p, ts, reserved)
    ensures Read32(m, p) == InfoSize(ts)
  {
    var info := EncodeInfo(ts, reserved);
    assert info[0..4] == Le32(InfoSize(ts));
    Within(m, p, info, 0, 4);
    ReadsBack(m, p, InfoSize(ts));
  }

  /** Tag by tag: the words and the payload of each tag from i on, and the end tag, beginning at a. */
  ghost predicate Chain(m: seq<byte>, a: nat, ts: seq<Tag>, i: nat)
    requires i <= |ts|
    decreases |ts| - i
  {
    && a + 8 <= |m|
    && if i == |ts| then Read32(m, a) == END
       else
         && WellFormed(ts[i])
         && Read32(m, a) == ts[i].kind
         && Read32(m, a + 4) == 8 + |ts[i].payload|
         && a + 8 + |ts[i].payload| <= |m| && m[a + 8..a + 8 + |ts[i].payload|] == ts[i].payload
         && Chain(m, a + TagSize(ts[i]), ts, i + 1)
  }

  lemma {:induction false} TagsFormChain(m: seq<byte>, a: nat, ts: seq<Tag>, i: nat)
    requires TagsAt(m, a, ts, i)
    ensures Chain(m, a, ts, i)
    decreases |ts| - i
  {
    if i == |ts| {
      EndInMemory(m, a, ts);
    } else {
      TagInMemory(m, a, ts, i);
      TagsFormChain(m, a + TagSize(ts[i]), ts, i + 1);
    }
  }
}
