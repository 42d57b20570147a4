// Directory entries (src/dir_entry.rs), the linear scan of a directory
// (src/iters/read_dir.rs) and the lookup by scanning (src/dir.rs).

module DirScan {
  import opened Basics
  import opened ByteReaders
  import Paths

  const NAME_OFFSET: nat := 8

  datatype Entry = Entry(inode: nat, name: Bytes, fileType: nat)

  /** `DirEntry::from_bytes`: an entry, unless its inode is zero, and its size. */
  function ParseEntry(bytes: Bytes): (r: Result<(Option<Entry>, nat)>)
    ensures r.Ok? ==> r.value.1 >= NAME_OFFSET
    ensures r.Ok? && r.value.0.Some? ==> Paths.ValidName(r.value.0.value.name) && r.value.0.value.inode > 0
  {
    if |bytes| < NAME_OFFSET then Err(Corrupt)
    else
      var inode, recLen := U32le(bytes, 0), U16le(bytes, 4);
      if recLen < NAME_OFFSET then Err(Corrupt)
      else if inode == 0 then Ok((None, recLen))
      else
        var nameEnd: nat := NAME_OFFSET + bytes[6];
        if nameEnd > |bytes| then Err(Corrupt)
        else if !(1 <= bytes[7] <= 7) then Err(Corrupt)
        else if !Paths.ValidName(bytes[NAME_OFFSET..nameEnd]) then Err(Corrupt)
        else Ok((Some(Entry(inode, bytes[NAME_OFFSET..nameEnd], bytes[7])), recLen))
  }

  /** A way to parse entries that makes progress, like `ParseEntry`. The scan relies
      on nothing else. */
  type Parser = p: Bytes -> Result<(Option<Entry>, nat)> |
      forall bytes :: p(bytes).Ok? ==> p(bytes).value.1 >= NAME_OFFSET
    witness ParseEntry

  function Single(e: Option<Entry>): Stream<Entry> {
    Stream(if e.Some? then [e.value] else [], None)
  }

  /** The entries of a block from `offset` on. */
  function ScanBlock(parse: Parser, block: Bytes, offset: nat): Stream<Entry>
    decreases |block| - offset
  {
    if offset >= |block| then Stream([], None)
    else match parse(block[offset..])
      case Err(e) => Stream([], Some(e))
      case Ok((entry, size)) => Single(entry).Then(ScanBlock(parse, block, offset + size))
  }

  /** How the blocks of a directory are read; the checksum of a block depends on
      whether it is the first. */
  datatype DirFs = DirFs(read: (nat, bool) -> Result<Bytes>, parse: Parser, blockSize: nat)
  {
    ghost predicate Valid() {
      && 0x20 <= blockSize
      && forall b, first :: read(b, first).Ok? ==> |read(b, first).value| == blockSize
    }
  }

  /** The entries of the given blocks. */
  function ScanDir(fs: DirFs, blocks: Stream<nat>, first: bool): Stream<Entry>
    decreases |blocks.items|
  {
    if blocks.items == [] then Stream([], blocks.err)
    else match fs.read(blocks.items[0], first)
      case Err(e) => Stream([], Some(e))
      case Ok(block) => ScanBlock(fs.parse, block, 0).Then(ScanDir(fs, blocks.Skip(1), false))
  }

  /** The first entry with the name. */
  function FindIn(entries: Stream<Entry>, name: Bytes): Result<Entry>
    decreases |entries.items|
  {
    if entries.items == [] then Err(if entries.err.Some? then entries.err.value else NotFound)
    else if entries.items[0].name == name then Ok(entries.items[0])
    else FindIn(entries.Skip(1), name)
  }

  lemma SingleThen(e: Option<Entry>, more: Stream<Entry>)
    ensures Single(e).Then(more) ==
            if e.Some? then Stream([e.value] + more.items, more.err) else more
  {
    assert [] + more.items == more.items;
  }

  // ----- the iterator

  /** The fields of a `ReadDir`; `fileBlocks` is what its block iterator has left. */
  datatype State = State(fileBlocks: Stream<nat>, blockIndex: Option<nat>, isFirst: bool, block: Bytes, offset: nat)
  {
    ghost function Rest(fs: DirFs): Stream<Entry> {
      if blockIndex.None? then ScanDir(fs, fileBlocks, isFirst)
      else if offset == 0 then
        ScanDir(fs, Stream([blockIndex.value] + fileBlocks.items, fileBlocks.err), isFirst)
      else ScanBlock(fs.parse, block, offset).Then(ScanDir(fs, fileBlocks, false))
    }
  }

  /** What a call of `next_impl` does. */
  ghost predicate StepOf(before: Stream<Entry>, r: Result<Option<Entry>>, after: Stream<Entry>) {
    match r
    case Err(e) => before == Stream([], Some(e))
    case Ok(entry) => before == Single(entry).Then(after)
  }

  /** `block` is what the current block holds. */
  ghost predicate Holds(fs: DirFs, s: State, block: Bytes) {
    && s.blockIndex.Some?
    && if s.offset == 0 then fs.read(s.blockIndex.value, s.isFirst) == Ok(block) else block == s.block
  }

  lemma RestOfBlock(fs: DirFs, s: State, block: Bytes)
    requires Holds(fs, s, block)
    ensures s.Rest(fs) == ScanBlock(fs.parse, block, s.offset).Then(ScanDir(fs, s.fileBlocks, false))
  {
    assert Stream([s.blockIndex.value] + s.fileBlocks.items, s.fileBlocks.err).Skip(1) == s.fileBlocks;
  }

  lemma ScanStep(parse: Parser, block: Bytes, offset: nat, more: Stream<Entry>)
    requires offset < |block|
    ensures var parsed := parse(block[offset..]);
            && (parsed.Err? ==> ScanBlock(parse, block, offset).Then(more) == Stream([], Some(parsed.error)))
            && (parsed.Ok? ==> ScanBlock(parse, block, offset).Then(more) ==
                               Single(parsed.value.0).Then(ScanBlock(parse, block, offset + parsed.value.1).Then(more)))
  {
    var parsed := parse(block[offset..]);
    if parsed.Ok? {
      ThenAssociative(Single(parsed.value.0), ScanBlock(parse, block, offset + parsed.value.1), more);
    }
  }

  /** Parsing the entry at the offset. */
  lemma ParseStep(fs: DirFs, s: State, block: Bytes)
    requires Holds(fs, s, block) && s.offset < |block|
    ensures var parsed := fs.parse(block[s.offset..]);
            && (parsed.Err? ==> s.Rest(fs) == Stream([], Some(parsed.error)))
            && (parsed.Ok? ==>
                  var t := s.(block := block, offset := s.offset + parsed.value.1);
                  StepOf(s.Rest(fs), Ok(parsed.value.0), t.Rest(fs)))
  {
    ScanStep(fs.parse, block, s.offset, ScanDir(fs, s.fileBlocks, false));
    RestOfBlock(fs, s, block);
    var parsed := fs.parse(block[s.offset..]);
    if parsed.Ok? {
      RestOfBlock(fs, s.(block := block, offset := s.offset + parsed.value.1), block);
    }
  }

  class ReadDir {
    const fs: DirFs
    var fileBlocks: Stream<nat>
    var blockIndex: Option<nat>
    var isFirst: bool
    var block: Bytes
    var offset: nat
    var isDone: bool

    ghost function Now(): State
      reads this
    {
      State(fileBlocks, blockIndex, isFirst, block, offset)
    }

    ghost predicate Valid()
      reads this
    {
      fs.Valid() && |block| == fs.blockSize
    }

    /** What is left to yield. */
    ghost function Rest(): Stream<Entry>
      reads this
    {
      if isDone then Stream([], None) else Now().Rest(fs)
    }

    constructor (fs: DirFs, blocks: Stream<nat>)
      requires fs.Valid()
      ensures Valid() && Rest() == ScanDir(fs, blocks, true)
    {
      this.fs := fs;
      fileBlocks, blockIndex, isFirst := blocks, None, true;
      block, offset, isDone := seq(fs.blockSize, _ => 0), 0, false;
    }

    /** The next block of the directory becomes the current one. */
    method FetchBlock()
      requires Valid() && !isDone && blockIndex.None? && fileBlocks.items != []
      modifies this
      ensures Valid() && !isDone && blockIndex.Some? && offset == 0 && fileBlocks == old(fileBlocks).Skip(1)
      ensures Now().Rest(fs) == old(Now().Rest(fs))
    {
      ghost var before := fileBlocks;
      blockIndex := Some(fileBlocks.items[0]);
      fileBlocks := fileBlocks.Skip(1);
      offset := 0;
      assert Stream([blockIndex.value] + fileBlocks.items, fileBlocks.err) == before;
    }

    /** The rest of `next_impl`, which has a current block. */
    method FromBlock() returns (r: Result<Option<Entry>>)
      requires Valid() && !isDone && blockIndex.Some?
      modifies this
      ensures Valid() && !isDone && fileBlocks == old(fileBlocks)
      ensures StepOf(old(Now().Rest(fs)), r, Now().Rest(fs))
      ensures r == Ok(None) ==> blockIndex.None? || old(offset) < Min(offset, fs.blockSize)
    {
      if offset >= fs.blockSize {
        SingleThen(None, ScanDir(fs, fileBlocks, false));
        isFirst := false;
        blockIndex := None;
        return Ok(None);
      }
      if offset == 0 {
        var data := fs.read(blockIndex.value, isFirst);
        if data.Err? {
          return Err(data.error);
        }
        ParseStep(fs, Now(), data.value);
        block := data.value;
      } else {
        ParseStep(fs, Now(), block);
      }
      var parsed := fs.parse(block[offset..]);
      if parsed.Err? {
        return Err(parsed.error);
      }
      offset := offset + parsed.value.1;
      return Ok(parsed.value.0);
    }

    /** `next_impl`. */
    method NextImpl() returns (r: Result<Option<Entry>>)
      requires Valid() && !isDone
      modifies this
      ensures Valid()
      ensures StepOf(old(Rest()), r, Rest())
      ensures !isDone && r == Ok(None) ==>
                || |fileBlocks.items| < old(|fileBlocks.items|)
                || (fileBlocks == old(fileBlocks) && old(blockIndex).Some?
                    && (blockIndex.None? || old(offset) < Min(offset, fs.blockSize)))
    {
      if blockIndex.None? {
        if fileBlocks.items == [] {
          if fileBlocks.err.Some? {
            return Err(fileBlocks.err.value);
          }
          isDone := true;
          return Ok(None);
        }
        FetchBlock();
      }
      r := FromBlock();
    }

    /** `Iterator::next`. */
    method Next() returns (r: Option<Result<Entry>>)
      requires Valid()
      modifies this
      ensures Valid()
      ensures Yielded(old(Rest()), r, Rest())
    {
      while true
        invariant Valid() && Rest() == old(Rest())
        decreases !isDone, |fileBlocks.items|, blockIndex.Some?,
                  if offset < fs.blockSize then fs.blockSize - offset else 0
      {
        if isDone {
          return None;
        }
        var step := NextImpl();
        if step.Err? {
          isDone := true;
          return Some(Err(step.error));
        }
        SingleThen(step.value, Rest());
        if step.value.Some? {
          return Some(Ok(step.value.value));
        }
      }
    }
  }

  /** `get_dir_entry_inode_by_name` without an htree, up to reading the inode. */
  method FindByScan(fs: DirFs, blocks: Stream<nat>, name: Bytes) returns (r: Result<Entry>)
    requires fs.Valid()
    ensures r == FindIn(ScanDir(fs, blocks, true), name)
  {
    var entries := new ReadDir(fs, blocks);
    while true
      invariant entries.Valid()
      invariant FindIn(entries.Rest(), name) == FindIn(ScanDir(fs, blocks, true), name)
      decreases |entries.Rest().items|
    {
      ghost var rest := entries.Rest();
      var next := entries.Next();
      if next.None? {
        return Err(NotFound);
      }
      if next.value.Err? {
        return Err(next.value.error);
      }
      assert entries.Rest() == rest.Skip(1);
      if next.value.value.name == name {
        return Ok(next.value.value);
      }
    }
  }
}
