// Writing directory blocks, the inverse of scanning them.

module DirFormat {
  import opened Basics
  import opened ByteReaders
  import opened DirScan
  import Paths

  /** A record: an entry and its padding, or an unused record. */
  datatype Record = Used(entry: Entry, pad: Bytes) | Unused(body: Bytes)
  {
    predicate Valid() {
      if Used? then
        && 0 < entry.inode < U32_LIMIT && Paths.ValidName(entry.name) && 1 <= entry.fileType <= 7
        && NAME_OFFSET + |entry.name| + |pad| < U16_LIMIT
      else 2 <= |body| && 6 + |body| < U16_LIMIT
    }

    function Entry(): Option<DirScan.Entry> {
      if Used? then Some(entry) else None
    }
  }

  function Header(inode: nat, size: nat): (r: Bytes)
    requires inode < U32_LIMIT && size < U16_LIMIT
    ensures |r| == 6
  {
    PutU32le(inode) + PutU16le(size)
  }

  function Encode(r: Record): (bytes: Bytes)
    requires r.Valid()
    ensures |bytes| >= NAME_OFFSET
  {
    match r
    case Used(e, pad) =>
      Header(e.inode, NAME_OFFSET + |e.name| + |pad|) + [|e.name|, e.fileType] + e.name + pad
    case Unused(body) => Header(0, 6 + |body|) + body
  }

  lemma HeaderReads(inode: nat, size: nat, rest: Bytes)
    requires inode < U32_LIMIT && size < U16_LIMIT
    ensures U32le(Header(inode, size) + rest, 0) == inode && U16le(Header(inode, size) + rest, 4) == size
  {
    var bytes := Header(inode, size) + rest;
    assert bytes[..4] == PutU32le(inode);
    assert bytes[4..6] == PutU16le(size);
  }

  lemma NameReads(header: Bytes, name: Bytes, fileType: byte, rest: Bytes)
    requires |header| == 6 && |name| < 0x100
    ensures var bytes := header + ([|name|, fileType] + name + rest);
            && bytes[6] == |name| && bytes[7] == fileType
            && bytes[NAME_OFFSET..NAME_OFFSET + |name|] == name
  {
  }

  lemma UsedRoundTrip(e: Entry, pad: Bytes, tail: Bytes)
    requires Used(e, pad).Valid()
    ensures ParseEntry(Encode(Used(e, pad)) + tail) == Ok((Some(e), |Encode(Used(e, pad))|))
  {
    var header := Header(e.inode, NAME_OFFSET + |e.name| + |pad|);
    var rest := [|e.name|, e.fileType] + e.name + (pad + tail);
    assert Encode(Used(e, pad)) + tail == header + rest;
    HeaderReads(e.inode, NAME_OFFSET + |e.name| + |pad|, rest);
    NameReads(header, e.name, e.fileType, pad + tail);
  }

  lemma UnusedRoundTrip(body: Bytes, tail: Bytes)
    requires Unused(body).Valid()
    ensures ParseEntry(Encode(Unused(body)) + tail) == Ok((None, |Encode(Unused(body))|))
  {
    assert Encode(Unused(body)) + tail == Header(0, 6 + |body|) + (body + tail);
    HeaderReads(0, 6 + |body|, body + tail);
  }

  /** A record is read back, whatever follows it. */
  lemma RecordRoundTrip(r: Record, tail: Bytes)
    requires r.Valid()
    ensures ParseEntry(Encode(r) + tail) == Ok((r.Entry(), |Encode(r)|))
  {
    if r.Used? {
      UsedRoundTrip(r.entry, r.pad, tail);
    } else {
      UnusedRoundTrip(r.body, tail);
    }
  }

  /** The bytes do not start with a record. */
  predicate Malformed(bytes: Bytes) {
    || |bytes| < 8
    || U16le(bytes, 4) < 8
    || (U32le(bytes, 0) != 0 &&
        (|| 8 + bytes[6] > |bytes|
         || bytes[7] == 0 || bytes[7] > 7
         || !Paths.ValidName(bytes[8..8 + bytes[6]])))
  }

  /** Exactly the malformed bytes are refused, whatever their size says. */
  lemma MalformedExactly(bytes: Bytes)
    ensures ParseEntry(bytes).Err? <==> Malformed(bytes)
    ensures ParseEntry(bytes).Err? ==> ParseEntry(bytes) == Err(Corrupt)
    ensures ParseEntry(bytes).Ok? && U32le(bytes, 0) == 0 ==> ParseEntry(bytes) == Ok((None, U16le(bytes, 4)))
    ensures ParseEntry(bytes).Ok? && U32le(bytes, 0) != 0 ==>
              ParseEntry(bytes) ==
              Ok((Some(Entry(U32le(bytes, 0), bytes[8..8 + bytes[6]], bytes[7])), U16le(bytes, 4)))
  {
  }

  ghost predicate AllValid(rs: seq<Record>) {
    forall i :: 0 <= i < |rs| ==> rs[i].Valid()
  }

  function EncodeAll(rs: seq<Record>): Bytes
    requires AllValid(rs)
  {
    if rs == [] then [] else Encode(rs[0]) + EncodeAll(rs[1..])
  }

  function Entries(rs: seq<Record>): seq<Entry> {
    if rs == [] then [] else (if rs[0].Used? then [rs[0].entry] else []) + Entries(rs[1..])
  }

  /** One step of a scan, with any parser. */
  lemma ScanRecord(parse: Parser, done: Bytes, first: Bytes, tail: Bytes, entry: Option<Entry>)
    requires first != [] && parse(first + tail) == Ok((entry, |first|))
    ensures ScanBlock(parse, done + (first + tail), |done|) ==
            Single(entry).Then(ScanBlock(parse, done + first + tail, |done + first|))
  {
    assert (done + (first + tail))[|done|..] == first + tail;
    assert done + (first + tail) == done + first + tail;
  }

  /** What is left of a block after its records: nothing, or what is no record. */
  function EndOf(rest: Bytes): Option<Error> {
    if rest == [] then None else Some(Corrupt)
  }

  lemma ScanEnd(done: Bytes, rest: Bytes)
    requires rest == [] || Malformed(rest)
    ensures ScanBlock(ParseEntry, done + rest, |done|) == Stream([], EndOf(rest))
  {
    if rest != [] {
      MalformedExactly(rest);
      assert (done + rest)[|done|..] == rest;
    }
  }

  lemma {:induction false} ScanRoundTrip(done: Bytes, rs: seq<Record>, rest: Bytes)
    requires AllValid(rs) && (rest == [] || Malformed(rest))
    ensures ScanBlock(ParseEntry, done + (EncodeAll(rs) + rest), |done|) == Stream(Entries(rs), EndOf(rest))
    decreases |rs|
  {
    if rs == [] {
      assert [] + rest == rest;
      ScanEnd(done, rest);
    } else {
      var first, tail := Encode(rs[0]), EncodeAll(rs[1..]) + rest;
      assert EncodeAll(rs) + rest == first + tail;
      RecordRoundTrip(rs[0], tail);
      ScanRecord(ParseEntry, done, first, tail, rs[0].Entry());
      ScanRoundTrip(done + first, rs[1..], rest);
      SingleThen(rs[0].Entry(), Stream(Entries(rs[1..]), EndOf(rest)));
    }
  }

  /** Scanning a block gives back the entries that were written to it, up to bytes that
      are no record. */
  lemma BlockRoundTrip(rs: seq<Record>, rest: Bytes)
    requires AllValid(rs) && (rest == [] || Malformed(rest))
    ensures ScanBlock(ParseEntry, EncodeAll(rs) + rest, 0) == Stream(Entries(rs), EndOf(rest))
  {
    ScanRoundTrip([], rs, rest);
    assert [] + (EncodeAll(rs) + rest) == EncodeAll(rs) + rest;
  }

  // ----- directories

  /** A block of a directory: records, and perhaps something after them. */
  datatype Content = Content(records: seq<Record>, rest: Bytes)
  {
    ghost predicate Valid() {
      AllValid(records) && (rest == [] || Malformed(rest))
    }

    function Encoded(): Bytes
      requires Valid()
    {
      EncodeAll(records) + rest
    }
  }

  /** The first blocks can be read and hold these records. Only the first block of a
      directory is read as its first, and only the last one may have more. */
  ghost predicate Holds(fs: DirFs, blocks: seq<nat>, first: bool, contents: seq<Content>) {
    && |contents| <= |blocks|
    && forall i :: 0 <= i < |contents| ==>
         && contents[i].Valid() && (i < |contents| - 1 ==> contents[i].rest == [])
         && fs.read(blocks[i], first && i == 0) == Ok(contents[i].Encoded())
  }

  function AllEntries(contents: seq<Content>): seq<Entry> {
    if contents == [] then [] else Entries(contents[0].records) + AllEntries(contents[1..])
  }

  /** What ends the scan after the blocks with `contents`: what is no record, a block that
      cannot be read, or the end of the blocks. */
  ghost function EndOfScan(fs: DirFs, blocks: Stream<nat>, first: bool, contents: seq<Content>): Option<Error>
    requires |contents| <= |blocks.items|
  {
    var n := |contents|;
    if n > 0 && contents[n - 1].rest != [] then Some(Corrupt)
    else if n == |blocks.items| then blocks.err
    else
      var next := fs.read(blocks.items[n], first && n == 0);
      if next.Err? then Some(next.error) else None
  }

  lemma ScanFirstBlock(fs: DirFs, blocks: Stream<nat>, first: bool, c: Content)
    requires fs.parse == ParseEntry && blocks.items != [] && c.Valid()
    requires fs.read(blocks.items[0], first) == Ok(c.Encoded())
    ensures ScanDir(fs, blocks, first) ==
            Stream(Entries(c.records), EndOf(c.rest)).Then(ScanDir(fs, blocks.Skip(1), false))
  {
    BlockRoundTrip(c.records, c.rest);
  }

  /** Scanning a directory gives back the entries that were written to its blocks, up to
      the first error. */
  lemma {:induction false} DirRoundTrip(fs: DirFs, blocks: Stream<nat>, first: bool, contents: seq<Content>)
    requires fs.parse == ParseEntry && Holds(fs, blocks.items, first, contents)
    requires |contents| == |blocks.items| || EndOfScan(fs, blocks, first, contents).Some?
    ensures ScanDir(fs, blocks, first) == Stream(AllEntries(contents), EndOfScan(fs, blocks, first, contents))
    decreases |contents|
  {
    if contents != [] {
      ScanFirstBlock(fs, blocks, first, contents[0]);
      if contents[0].rest == [] {
        HoldsRest(fs, blocks, first, contents);
        DirRoundTrip(fs, blocks.Skip(1), false, contents[1..]);
      } else {
        assert |contents| == 1 && contents[1..] == [];
        assert Entries(contents[0].records) + [] == Entries(contents[0].records);
      }
    }
  }

  lemma HoldsRest(fs: DirFs, blocks: Stream<nat>, first: bool, contents: seq<Content>)
    requires contents != [] && Holds(fs, blocks.items, first, contents) && contents[0].rest == []
    ensures Holds(fs, blocks.Skip(1).items, false, contents[1..])
    ensures EndOfScan(fs, blocks.Skip(1), false, contents[1..]) == EndOfScan(fs, blocks, first, contents)
  {
    forall i | 0 <= i < |contents[1..]|
      ensures && contents[1..][i].Valid() && (i < |contents[1..]| - 1 ==> contents[1..][i].rest == [])
              && fs.read(blocks.items[1..][i], false) == Ok(contents[1..][i].Encoded())
    {
      assert contents[1..][i] == contents[i + 1] && blocks.items[1..][i] == blocks.items[i + 1];
    }
  }
}
