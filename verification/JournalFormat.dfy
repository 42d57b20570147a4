// The on-disk format of journal blocks: the common header, the tags of a
// descriptor block (src/journal/descriptor_block.rs) and the table of a
// revocation block (src/journal/revocation_block.rs).

module JournalFormat {
  import opened Basics
  import opened ByteReaders

  const MAGIC: nat := 0xc03b_3998
  const HEADER_SIZE: nat := 12

  const DESCRIPTOR: nat := 1
  const COMMIT: nat := 2
  const REVOCATION: nat := 5

  datatype Header = Header(blockType: nat, sequence: nat)

  /** `JournalBlockHeader::read_bytes`. */
  function ReadHeader(block: Bytes): Option<Header>
    requires |block| >= HEADER_SIZE
  {
    if U32be(block, 0) != MAGIC then None
    else Some(Header(U32be(block, 4), U32be(block, 8)))
  }

  // ----- tags

  const ESCAPED: nat := 1
  const UUID_OMITTED: nat := 2
  const LAST_TAG: nat := 8

  const SIZE_WITHOUT_UUID: nat := 16
  const SIZE_WITH_UUID: nat := 32

  predicate HasFlag(flags: nat, flag: nat)
    requires flag > 0
  {
    flags / flag % 2 == 1
  }

  datatype Tag = Tag(block: nat, checksum: nat, flags: nat)
  {
    function EncodedSize(): nat {
      if HasFlag(flags, UUID_OMITTED) then SIZE_WITHOUT_UUID else SIZE_WITH_UUID
    }
  }

  /** `DescriptorBlockTag::read_bytes`. */
  function ReadTag(bytes: Bytes): (r: Option<Tag>)
    ensures r.Some? ==> r.value.EncodedSize() <= |bytes|
  {
    if |bytes| < SIZE_WITHOUT_UUID then None
    else
      var flags := U32be(bytes, 4);
      if !HasFlag(flags, UUID_OMITTED) && |bytes| < SIZE_WITH_UUID then None
      else Some(Tag(U64FromHiLo(U32be(bytes, 8), U32be(bytes, 0)), U32be(bytes, 12), flags))
  }

  /** Everything that the tag iterator yields from `bytes`. */
  function TagStream(bytes: Bytes): (s: Stream<Tag>)
    decreases |bytes|
  {
    match ReadTag(bytes)
    case None => Stream([], Some(Corrupt))
    case Some(tag) =>
      if HasFlag(tag.flags, ESCAPED) then Stream([], Some(Incompatible))
      else if HasFlag(tag.flags, LAST_TAG) then Stream([tag], None)
      else
        var rest := TagStream(bytes[tag.EncodedSize()..]);
        Stream([tag] + rest.items, rest.err)
  }

  /** `DescriptorBlockTagIter`. */
  class DescriptorBlockTagIter {
    var bytes: Bytes
    var isDone: bool

    constructor (bytes: Bytes)
      ensures Rest() == TagStream(bytes)
    {
      this.bytes := bytes;
      isDone := false;
    }

    /** What is left to yield. */
    ghost function Rest(): Stream<Tag>
      reads this
    {
      if isDone then Stream([], None) else TagStream(bytes)
    }

    method Next() returns (r: Option<Result<Tag>>)
      modifies this
      ensures Yielded(old(Rest()), r, Rest())
    {
      if isDone {
        return None;
      }
      var read := ReadTag(bytes);
      if read.None? {
        isDone := true;
        return Some(Err(Corrupt));
      }
      var tag := read.value;
      if HasFlag(tag.flags, ESCAPED) {
        isDone := true;
        return Some(Err(Incompatible));
      }
      if HasFlag(tag.flags, LAST_TAG) {
        isDone := true;
        return Some(Ok(tag));
      }
      bytes := bytes[tag.EncodedSize()..];
      return Some(Ok(tag));
    }
  }

  /** On any bytes the iterator yields at most one item per sixteen bytes and
      one more. */
  lemma {:induction false} TagStreamIsShort(bytes: Bytes)
    ensures var s := TagStream(bytes);
            |s.items| + (if s.err.Some? then 1 else 0) <= |bytes| / SIZE_WITHOUT_UUID + 1
    decreases |bytes|
  {
    var read := ReadTag(bytes);
    if read.Some? && !HasFlag(read.value.flags, ESCAPED) && !HasFlag(read.value.flags, LAST_TAG) {
      TagStreamIsShort(bytes[read.value.EncodedSize()..]);
    }
  }

  // ----- writing tags

  /** A tag as it is laid out on disk, with its UUID if it has one. */
  function EncodeTag(tag: Tag, uuid: Bytes): (r: Bytes)
    requires Encodable(tag, uuid)
    ensures |r| == tag.EncodedSize()
  {
    PutU32be(tag.block % U32_LIMIT) + PutU32be(tag.flags)
    + PutU32be(tag.block / U32_LIMIT) + PutU32be(tag.checksum) + uuid
  }

  predicate Encodable(tag: Tag, uuid: Bytes) {
    && tag.block < U64_LIMIT && tag.checksum < U32_LIMIT && tag.flags < U32_LIMIT
    && |uuid| == if tag.flags / 2 % 2 == 1 then 0 else 16
  }

  lemma FourWords(a: Bytes, b: Bytes, c: Bytes, d: Bytes, rest: Bytes)
    requires |a| == |b| == |c| == |d| == 4
    ensures var s := a + b + c + d + rest;
            && U32be(s, 0) == U32be(a, 0) && U32be(s, 4) == U32be(b, 0)
            && U32be(s, 8) == U32be(c, 0) && U32be(s, 12) == U32be(d, 0)
  {
    var s := a + b + c + d + rest;
    forall i: nat | i < 4
      ensures s[i] == a[i] && s[4 + i] == b[i] && s[8 + i] == c[i] && s[12 + i] == d[i]
    {
    }
  }

  lemma ReadEncodedTag(tag: Tag, uuid: Bytes, rest: Bytes)
    requires Encodable(tag, uuid)
    ensures ReadTag(EncodeTag(tag, uuid) + rest) == Some(tag)
  {
    var a, b := PutU32be(tag.block % U32_LIMIT), PutU32be(tag.flags);
    var c, d := PutU32be(tag.block / U32_LIMIT), PutU32be(tag.checksum);
    FourWords(a, b, c, d, uuid + rest);
    assert EncodeTag(tag, uuid) + rest == a + b + c + d + (uuid + rest);
  }

  function EncodeTags(tags: seq<Tag>, uuids: seq<Bytes>): Bytes
    requires |uuids| == |tags|
    requires forall i :: 0 <= i < |tags| ==> Encodable(tags[i], uuids[i])
  {
    if tags == [] then []
    else EncodeTag(tags[0], uuids[0]) + EncodeTags(tags[1..], uuids[1..])
  }

  /** No tag is escaped (bit 0), and the last tag, and only it, says it is the last
      (bit 3). */
  predicate WellFlagged(tags: seq<Tag>) {
    forall i :: 0 <= i < |tags| ==>
      && tags[i].flags % 2 == 0
      && (tags[i].flags / 8 % 2 == 1 <==> i == |tags| - 1)
  }

  /** Iterating over written tags, whatever follows them, gives them back. */
  lemma {:induction false} TagsRoundTrip(tags: seq<Tag>, uuids: seq<Bytes>, after: Bytes)
    requires tags != [] && |uuids| == |tags|
    requires forall i :: 0 <= i < |tags| ==> Encodable(tags[i], uuids[i])
    requires WellFlagged(tags)
    ensures TagStream(EncodeTags(tags, uuids) + after) == Stream(tags, None)
    decreases |tags|
  {
    var first, rest := EncodeTag(tags[0], uuids[0]), EncodeTags(tags[1..], uuids[1..]);
    ReadEncodedTag(tags[0], uuids[0], rest + after);
    Shift(first, rest, after);
    if |tags| > 1 {
      TagsRoundTrip(tags[1..], uuids[1..], after);
      assert tags == [tags[0]] + tags[1..];
    } else {
      assert tags == [tags[0]];
    }
  }

  lemma TagComesFirst(tag: Tag, uuid: Bytes, after: Bytes)
    requires Encodable(tag, uuid) && tag.flags % 2 == 0 && tag.flags / 8 % 2 == 0
    ensures TagStream(EncodeTag(tag, uuid) + after) == Stream([tag], None).Then(TagStream(after))
  {
    ReadEncodedTag(tag, uuid, after);
    Shift(EncodeTag(tag, uuid), [], after);
    assert EncodeTag(tag, uuid) + [] == EncodeTag(tag, uuid) && [] + after == after;
  }

  lemma StreamAgain<T>(s: Stream<T>)
    ensures Stream([], None).Then(s) == s
  {
    assert [] + s.items == s.items;
  }

  lemma StreamCons<T>(items: seq<T>)
    requires items != []
    ensures Stream([items[0]], None).Then(Stream(items[1..], None)) == Stream(items, None)
  {
    assert [items[0]] + items[1..] == items;
  }

  /** Tags that are neither escaped nor the last are yielded before what follows them. */
  lemma {:induction false} TagsComeFirst(tags: seq<Tag>, uuids: seq<Bytes>, after: Bytes)
    requires |uuids| == |tags|
    requires forall i :: 0 <= i < |tags| ==> Encodable(tags[i], uuids[i])
    requires forall i :: 0 <= i < |tags| ==> tags[i].flags % 2 == 0 && tags[i].flags / 8 % 2 == 0
    ensures TagStream(EncodeTags(tags, uuids) + after) == Stream(tags, None).Then(TagStream(after))
    decreases |tags|
  {
    if tags == [] {
      assert [] + after == after;
      StreamAgain(TagStream(after));
    } else {
      var rest := EncodeTags(tags[1..], uuids[1..]);
      TagComesFirst(tags[0], uuids[0], rest + after);
      assert EncodeTags(tags, uuids) + after == EncodeTag(tags[0], uuids[0]) + (rest + after);
      TagsComeFirst(tags[1..], uuids[1..], after);
      ThenAssociative(Stream([tags[0]], None), Stream(tags[1..], None), TagStream(after));
      StreamCons(tags);
    }
  }

  /** Iteration fails at an escaped tag. */
  lemma EscapedTagFails(tags: seq<Tag>, uuids: seq<Bytes>, escaped: Tag, uuid: Bytes, after: Bytes)
    requires |uuids| == |tags|
    requires forall i :: 0 <= i < |tags| ==> Encodable(tags[i], uuids[i])
    requires forall i :: 0 <= i < |tags| ==> tags[i].flags % 2 == 0 && tags[i].flags / 8 % 2 == 0
    requires Encodable(escaped, uuid) && escaped.flags % 2 == 1
    ensures TagStream(EncodeTags(tags, uuids) + (EncodeTag(escaped, uuid) + after)) ==
            Stream(tags, Some(Incompatible))
  {
    TagsComeFirst(tags, uuids, EncodeTag(escaped, uuid) + after);
    ReadEncodedTag(escaped, uuid, after);
    assert tags + [] == tags;
  }

  /** Iteration fails where the bytes run out before the last tag. */
  lemma TruncatedTagFails(tags: seq<Tag>, uuids: seq<Bytes>, after: Bytes)
    requires |uuids| == |tags|
    requires forall i :: 0 <= i < |tags| ==> Encodable(tags[i], uuids[i])
    requires forall i :: 0 <= i < |tags| ==> tags[i].flags % 2 == 0 && tags[i].flags / 8 % 2 == 0
    requires |after| < 16 || (|after| < 32 && U32be(after, 4) / 2 % 2 == 0)
    ensures TagStream(EncodeTags(tags, uuids) + after) == Stream(tags, Some(Corrupt))
  {
    TagsComeFirst(tags, uuids, after);
    assert tags + [] == tags;
  }

  lemma Shift(first: Bytes, rest: Bytes, after: Bytes)
    ensures first + rest + after == first + (rest + after)
    ensures (first + rest + after)[|first|..] == rest + after
  {
  }

  // ----- revocations

  /** The first `n` 64-bit words of `data`. */
  function Words(data: Bytes, n: nat): (words: seq<nat>)
    requires 8 * n <= |data|
    ensures |words| == n
  {
    seq(n, i requires 0 <= i < n => U64be(data, 8 * i))
  }

  /** The words of a table that starts with its size in bytes. */
  function TableIn(data: Bytes): Result<seq<nat>>
    requires |data| >= 4
  {
    var numBytes := U32be(data, 0);
    if numBytes % 8 != 0 || numBytes > |data| - 4 then Err(Corrupt)
    else Ok(Words(data[4..], numBytes / 8))
  }

  /** The block indices listed by a revocation block: the table between the
      header and the checksum. */
  function RevocationTable(block: Bytes): Result<seq<nat>>
    requires |block| >= HEADER_SIZE + 8
  {
    TableIn(block[HEADER_SIZE..|block| - 4])
  }

  /** `read_revocation_block_table`: append the listed indices to `table`. */
  method ReadRevocationBlockTable(block: Bytes, table: seq<nat>) returns (r: Result<seq<nat>>)
    requires |block| >= HEADER_SIZE + 8
    ensures RevocationTable(block).Err? ==> r == Err(RevocationTable(block).error)
    ensures RevocationTable(block).Ok? ==> r == Ok(table + RevocationTable(block).value)
  {
    var data := block[HEADER_SIZE..|block| - 4];
    var numBytes := U32be(data, 0);
    if numBytes % 8 != 0 {
      return Err(Corrupt);
    }
    data := data[4..];
    if numBytes > |data| {
      return Err(Corrupt);
    }
    ghost var all := data;
    data := data[..numBytes];
    var out := table;
    ghost var k := 0;
    while data != []
      invariant |data| + 8 * k == numBytes <= |all|
      invariant data == all[8 * k..numBytes]
      invariant out == table + Words(all, k)
      decreases |data|
    {
      WordAt(all, 8 * k, numBytes);
      assert Words(all, k + 1) == Words(all, k) + [U64be(all, 8 * k)];
      out := out + [U64be(data, 0)];
      data := data[8..];
      k := k + 1;
    }
    r := Ok(out);
  }

  lemma WordAt(data: Bytes, start: nat, end: nat)
    requires start + 8 <= end <= |data|
    ensures U64be(data[start..end], 0) == U64be(data, start)
    ensures data[start..end][8..] == data[start + 8..end]
  {
    assert data == data[..start] + data[start..end] + data[end..];
    ReadInside(data[..start], data[start..end], data[end..], 0);
    ReadInside(data[..start], data[start..end], data[end..], 4);
  }

  function EncodeWords(words: seq<nat>): (r: Bytes)
    requires forall i :: 0 <= i < |words| ==> words[i] < U64_LIMIT
    ensures |r| == 8 * |words|
  {
    if words == [] then [] else PutU64be(words[0]) + EncodeWords(words[1..])
  }

  lemma WordInFront(word: Bytes, rest: Bytes)
    requires |word| == 8
    ensures U64be(word + rest, 0) == U64be(word, 0)
  {
    ReadInside([], word, rest, 0);
    ReadInside([], word, rest, 4);
    assert [] + word + rest == word + rest;
  }

  lemma WordBehind(word: Bytes, rest: Bytes, offset: nat)
    requires |word| == 8 && offset + 8 <= |rest|
    ensures U64be(word + rest, 8 + offset) == U64be(rest, offset)
  {
    ReadInside(word, rest, [], offset);
    ReadInside(word, rest, [], offset + 4);
    assert word + rest + [] == word + rest;
  }

  lemma {:induction false} EncodedWordAt(words: seq<nat>, after: Bytes, i: nat)
    requires forall i :: 0 <= i < |words| ==> words[i] < U64_LIMIT
    requires i < |words|
    ensures U64be(EncodeWords(words) + after, 8 * i) == words[i]
    decreases |words|
  {
    var word, rest := PutU64be(words[0]), EncodeWords(words[1..]);
    assert word + rest + after == word + (rest + after);
    if i == 0 {
      WordInFront(word, rest + after);
    } else {
      EncodedWordAt(words[1..], after, i - 1);
      WordBehind(word, rest + after, 8 * (i - 1));
    }
  }

  /** A revocation block that lists `words`, with an arbitrary header, padding
      and checksum, is read back as that list. */
  lemma RevocationRoundTrip(header: Bytes, size: Bytes, words: seq<nat>, padding: Bytes, checksum: Bytes)
    requires |header| == HEADER_SIZE && |size| == 4 && |checksum| == 4
    requires forall i :: 0 <= i < |words| ==> words[i] < U64_LIMIT
    requires U32be(size, 0) == 8 * |words|
    ensures RevocationTable(header + size + EncodeWords(words) + padding + checksum) == Ok(words)
  {
    RevocationLayout(header, size, EncodeWords(words), padding, checksum);
    TableOf(size, EncodeWords(words) + padding, |words|);
    WordsRoundTrip(words, padding);
  }

  lemma TableOf(size: Bytes, rest: Bytes, n: nat)
    requires |size| == 4 && U32be(size, 0) == 8 * n && 8 * n <= |rest|
    ensures TableIn(size + rest) == Ok(Words(rest, n))
  {
    FirstWord(size, rest);
  }

  lemma WordsRoundTrip(words: seq<nat>, after: Bytes)
    requires forall i :: 0 <= i < |words| ==> words[i] < U64_LIMIT
    ensures Words(EncodeWords(words) + after, |words|) == words
  {
    forall i | 0 <= i < |words|
      ensures U64be(EncodeWords(words) + after, 8 * i) == words[i]
    {
      EncodedWordAt(words, after, i);
    }
  }

  lemma FirstWord(size: Bytes, rest: Bytes)
    requires |size| == 4
    ensures U32be(size + rest, 0) == U32be(size, 0) && (size + rest)[4..] == rest
  {
    ReadInside([], size, rest, 0);
    assert [] + size + rest == size + rest;
  }

  lemma RevocationLayout(header: Bytes, size: Bytes, table: Bytes, padding: Bytes, checksum: Bytes)
    requires |header| == HEADER_SIZE && |size| == 4 && |checksum| == 4
    ensures var block := header + size + table + padding + checksum;
            block[HEADER_SIZE..|block| - 4] == size + (table + padding)
  {
  }
}
