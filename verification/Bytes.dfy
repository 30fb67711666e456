// Byte strings: little-endian fields of two, four and eight bytes, and the search for the last
// occurrence of a pattern.
module Bytes {
  type byte = b: int | 0 <= b < 256

  /** `int.from_bytes(s[at : at + 2], "little")`, and likewise for the wider fields. */
  function U16(s: seq<byte>, at: nat): (v: nat)
    requires at + 2 <= |s|
    ensures v <= 0xFFFF
  {
    (s[at] as int) + 0x100 * (s[at + 1] as int)
  }

  function U32(s: seq<byte>, at: nat): (v: nat)
    requires at + 4 <= |s|
    ensures v <= 0xFFFF_FFFF
  {
    U16(s, at) + 0x1_0000 * U16(s, at + 2)
  }

  function U64(s: seq<byte>, at: nat): (v: nat)
    requires at + 8 <= |s|
    ensures v <= 0xFFFF_FFFF_FFFF_FFFF
  {
    U32(s, at) + 0x1_0000_0000 * U32(s, at + 4)
  }

  function Write16(v: nat): (s: seq<byte>)
    requires v <= 0xFFFF
    ensures |s| == 2 && U16(s, 0) == v
  {
    [v % 0x100, v / 0x100]
  }

  function Write32(v: nat): (s: seq<byte>)
    requires v <= 0xFFFF_FFFF
    ensures |s| == 4 && U32(s, 0) == v
  {
    Write16(v % 0x1_0000) + Write16(v / 0x1_0000)
  }

  function Write64(v: nat): (s: seq<byte>)
    requires v <= 0xFFFF_FFFF_FFFF_FFFF
    ensures |s| == 8 && U64(s, 0) == v
  {
    Write32(v % 0x1_0000_0000) + Write32(v / 0x1_0000_0000)
  }

  ghost predicate OccursAt(s: seq<byte>, pattern: seq<byte>, at: int) {
    0 <= at && at + |pattern| <= |s| && s[at..at + |pattern|] == pattern
  }

  /** `s.rfind(pattern)`: the last position holding `pattern`, or -1. */
  function LastIndexOf(s: seq<byte>, pattern: seq<byte>): (at: int)
    ensures at == -1 || OccursAt(s, pattern, at)
    ensures forall k :: OccursAt(s, pattern, k) ==> k <= at
  {
    LastIndexUpTo(s, pattern, |s| - |pattern|)
  }

  function LastIndexUpTo(s: seq<byte>, pattern: seq<byte>, last: int): (at: int)
    requires last + |pattern| <= |s|
    ensures at == -1 || OccursAt(s, pattern, at)
    ensures forall k :: OccursAt(s, pattern, k) && k <= last ==> k <= at
    decreases last + 1
  {
    if last < 0 then -1
    else if s[last..last + |pattern|] == pattern then last
    else LastIndexUpTo(s, pattern, last - 1)
  }
}
