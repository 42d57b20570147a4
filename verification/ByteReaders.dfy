// Fixed-width integers in byte strings (src/util.rs), with writers that are
// their inverses.

module ByteReaders {
  import opened Basics

  function U16le(b: Bytes, offset: nat): (r: nat)
    requires offset + 2 <= |b|
    ensures r < U16_LIMIT
  {
    b[offset] as int + 0x100 * (b[offset + 1] as int)
  }

  function U32le(b: Bytes, offset: nat): (r: nat)
    requires offset + 4 <= |b|
    ensures r < U32_LIMIT
  {
    b[offset] as int + 0x100 * (b[offset + 1] as int)
    + 0x1_0000 * (b[offset + 2] as int) + 0x100_0000 * (b[offset + 3] as int)
  }

  function U32be(b: Bytes, offset: nat): (r: nat)
    requires offset + 4 <= |b|
    ensures r < U32_LIMIT
  {
    0x100_0000 * (b[offset] as int) + 0x1_0000 * (b[offset + 1] as int)
    + 0x100 * (b[offset + 2] as int) + b[offset + 3] as int
  }

  /** `u64_from_hilo`: the two halves occupy disjoint bits, so or is plus. */
  function U64FromHiLo(hi: nat, lo: nat): (r: nat)
    requires hi < U32_LIMIT && lo < U32_LIMIT
    ensures r < U64_LIMIT
  {
    hi * U32_LIMIT + lo
  }

  function U64be(b: Bytes, offset: nat): (r: nat)
    requires offset + 8 <= |b|
    ensures r < U64_LIMIT
  {
    U64FromHiLo(U32be(b, offset), U32be(b, offset + 4))
  }

  function PutU16le(x: nat): (r: Bytes)
    requires x < U16_LIMIT
    ensures |r| == 2
    ensures U16le(r, 0) == x
  {
    [x % 0x100, x / 0x100]
  }

  function PutU32le(x: nat): (r: Bytes)
    requires x < U32_LIMIT
    ensures |r| == 4
    ensures U32le(r, 0) == x
  {
    var y := x / 0x100;
    var z := y / 0x100;
    [x % 0x100, y % 0x100, z % 0x100, z / 0x100]
  }

  function PutU32be(x: nat): (r: Bytes)
    requires x < U32_LIMIT
    ensures |r| == 4
    ensures U32be(r, 0) == x
  {
    var y := x / 0x100;
    var z := y / 0x100;
    [z / 0x100, z % 0x100, y % 0x100, x % 0x100]
  }

  function PutU64be(x: nat): (r: Bytes)
    requires x < U64_LIMIT
    ensures |r| == 8
    ensures U64be(r, 0) == x
  {
    var hi, lo := PutU32be(x / U32_LIMIT), PutU32be(x % U32_LIMIT);
    ReadInside([], hi, lo, 0);
    ReadInside(hi, lo, [], 0);
    assert [] + hi + lo == hi + lo && hi + lo + [] == hi + lo;
    hi + lo
  }

  lemma U16leAt(s: Bytes, offset: nat, b: Bytes)
    requires offset + 2 <= |s| && s[offset..offset + 2] == b
    ensures U16le(s, offset) == U16le(b, 0)
  {
    assert b[0] == s[offset] && b[1] == s[offset + 1];
  }

  lemma U32leAt(s: Bytes, offset: nat, b: Bytes)
    requires offset + 4 <= |s| && s[offset..offset + 4] == b
    ensures U32le(s, offset) == U32le(b, 0)
  {
    assert b[0] == s[offset] && b[1] == s[offset + 1] && b[2] == s[offset + 2] && b[3] == s[offset + 3];
  }

  /** A word is read the same wherever it stands. */
  lemma ReadInside(before: Bytes, b: Bytes, after: Bytes, offset: nat)
    requires offset + 4 <= |b|
    ensures U32be(before + b + after, |before| + offset) == U32be(b, offset)
  {
    var s := before + b + after;
    var k := |before| + offset;
    assert s[k] == b[offset] && s[k + 1] == b[offset + 1];
    assert s[k + 2] == b[offset + 2] && s[k + 3] == b[offset + 3];
  }
}
