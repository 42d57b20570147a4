// Reading a file through a cursor (src/file.rs): the cursor keeps the current
// block and the iterator over the blocks that follow it.

module FileCursor {
  import opened Basics
  import opened Arithmetic
  import opened FileMap

  /** The fields of a `File` that change; `rest` is what its block iterator has
      left to yield. */
  datatype Cursor = Cursor(position: nat, blockIndex: Option<nat>, rest: Stream<nat>)

  /** What a read gives: bytes, an error, or a failed `unwrap`. */
  datatype Reply = Data(data: Bytes) | Failed(error: Error) | Panicked

  /** Part of a block of the file; block 0 is a hole. A read of the disk fails if
      the device does (`fault`) or if the block cannot be read. */
  function ReadBlock(disk: Disk, block: nat, offset: nat, n: nat, fault: Option<Error>): Result<Bytes> {
    if block == 0 then Ok(ZeroBytes(n))
    else if fault.Some? then Err(fault.value)
    else disk.read(block, offset, n)
  }

  lemma ReadBlockLength(disk: Disk, block: nat, offset: nat, n: nat, fault: Option<Error>)
    requires disk.Valid()
    ensures var r := ReadBlock(disk, block, offset, n, fault); r.Ok? ==> |r.value| == n
  {
  }

  /** The current block, taken from the iterator when there is none. */
  function FetchBlock(c: Cursor): (Option<Result<nat>>, Cursor) {
    if c.blockIndex.Some? then (Some(Ok(c.blockIndex.value)), c)
    else if c.rest.items != [] then
      (Some(Ok(c.rest.items[0])), c.(blockIndex := Some(c.rest.items[0]), rest := c.rest.Skip(1)))
    else if c.rest.err.Some? then (Some(Err(c.rest.err.value)), c.(rest := Stream([], None)))
    else (None, c)
  }

  /** The cursor after `m` bytes of the current block. */
  function After(disk: Disk, c: Cursor, m: nat): Cursor
    requires disk.blockSize > 0
  {
    Cursor(c.position + m,
           if Remainder(c.position, disk.blockSize) + m >= disk.blockSize then None else c.blockIndex, c.rest)
  }

  /** Read up to `n` bytes of the current block. */
  function FromBlock(disk: Disk, c: Cursor, block: nat, n: nat, fault: Option<Error>): (Reply, Cursor)
    requires disk.blockSize > 0
  {
    var offset := Remainder(c.position, disk.blockSize);
    var m := Min(n, disk.blockSize - offset);
    match ReadBlock(disk, block, offset, m, fault)
    case Err(e) => (Failed(e), c)
    case Ok(data) => (Data(data), After(disk, c, m))
  }

  /** `read_bytes` into a buffer of `len` bytes. */
  function ReadStep(disk: Disk, inode: Inode, c: Cursor, len: nat, fault: Option<Error>): (Reply, Cursor)
    requires disk.blockSize > 0
  {
    if len == 0 || c.position >= inode.size then (Data([]), c)
    else
      var (block, d) := FetchBlock(c);
      match block
      case None => (Panicked, d)
      case Some(Err(e)) => (Failed(e), d)
      case Some(Ok(b)) => FromBlock(disk, d, b, Min(len, inode.size - c.position), fault)
  }

  /** `seek_to`: start the blocks again and skip those before the position. */
  function SeekStep(disk: Disk, blocks: Stream<nat>, position: nat): Cursor
    requires disk.blockSize > 0
  {
    Cursor(position, None, blocks.Skip(Quotient(position, disk.blockSize)))
  }

  // ----- the class

  datatype Outcome = Count(n: nat) | Failure(error: Error) | Panic

  /** The reply as the caller sees it: the number of bytes, and the bytes from
      `from` on in the buffer. */
  ghost predicate Delivered(reply: Reply, r: Outcome, before: Bytes, from: nat, after: Bytes) {
    match reply
    case Data(data) =>
      && r == Count(|data|) && from + |data| <= |before|
      && after == before[..from] + data + before[from + |data|..]
    case Failed(e) => r == Failure(e) && after == before
    case Panicked => r == Panic && after == before
  }

  lemma SkipOne<T>(before: Stream<T>, r: Option<Result<T>>, after: Stream<T>)
    requires Yielded(before, r, after)
    ensures after == before.Skip(1)
  {
  }

  lemma SkipMore<T>(s: Stream<T>, n: nat)
    ensures s.Skip(n).Skip(1) == s.Skip(n + 1)
  {
  }

  /** Overwrite part of an array. */
  method Fill(buf: array<byte>, from: nat, data: Bytes)
    requires from + |data| <= buf.Length
    modifies buf
    ensures buf[..] == old(buf[..from]) + data + old(buf[from + |data|..])
  {
    for i := 0 to |data|
      invariant forall k :: 0 <= k < i ==> buf[from + k] == data[k]
      invariant forall k :: 0 <= k < buf.Length && !(from <= k < from + i) ==> buf[k] == old(buf[k])
    {
      buf[from + i] := data[i];
    }
  }

  /** A file. `blocks` is what a new block iterator yields (`FileMap.BlocksOf`), and
      `fileBlocks` what the current one has left. */
  class File {
    const disk: Disk
    const inode: Inode
    const blocks: Stream<nat>
    var position: nat
    var blockIndex: Option<nat>
    var fileBlocks: Stream<nat>

    ghost function Now(): Cursor
      reads this
    {
      Cursor(position, blockIndex, fileBlocks)
    }

    /** `open_inode`, once the block iterator has been made. */
    constructor (disk: Disk, inode: Inode, blocks: Stream<nat>)
      ensures this.disk == disk && this.inode == inode && this.blocks == blocks
      ensures Now() == Cursor(0, None, blocks)
    {
      this.disk, this.inode, this.blocks := disk, inode, blocks;
      position, blockIndex, fileBlocks := 0, None, blocks;
    }

    /** `next` of the block iterator. */
    method NextBlock() returns (r: Option<Result<nat>>)
      modifies `fileBlocks
      ensures Yielded(old(fileBlocks), r, fileBlocks)
    {
      if fileBlocks.items != [] {
        r := Some(Ok(fileBlocks.items[0]));
      } else if fileBlocks.err.Some? {
        r := Some(Err(fileBlocks.err.value));
      } else {
        r := None;
      }
      fileBlocks := fileBlocks.Skip(1);
    }

    /** `self.block_index`, or the next block of the iterator. */
    method CurrentBlock() returns (block: Option<Result<nat>>)
      modifies `fileBlocks, `blockIndex
      ensures (block, Now()) == FetchBlock(old(Now()))
    {
      if blockIndex.Some? {
        return Some(Ok(blockIndex.value));
      }
      block := NextBlock();
      SkipOne(old(fileBlocks), block, fileBlocks);
      if block.Some? && block.value.Ok? {
        blockIndex := Some(block.value.value);
      }
    }

    method OffsetWithinBlock() returns (offset: nat)
      requires disk.blockSize > 0
      ensures offset == Remainder(position, disk.blockSize)
    {
      QuotientIs(position, disk.blockSize);
      return position % disk.blockSize;
    }

    /** The end of `read_bytes`: copy up to `n` bytes of the block. */
    method CopyFromBlock(block: nat, n: nat, buf: array<byte>, from: nat, fault: Option<Error>) returns (r: Outcome)
      requires disk.Valid() && from + n <= buf.Length
      modifies `position, `blockIndex, buf
      ensures Now() == FromBlock(disk, old(Now()), block, n, fault).1
      ensures Delivered(FromBlock(disk, old(Now()), block, n, fault).0, r, old(buf[..]), from, buf[..])
    {
      var offset := OffsetWithinBlock();
      var len := n;
      if len > disk.blockSize - offset {
        len := disk.blockSize - offset;
      }
      var data := ReadBlock(disk, block, offset, len, fault);
      if data.Err? {
        return Failure(data.error);
      }
      ReadBlockLength(disk, block, offset, len, fault);
      Fill(buf, from, data.value);
      if offset + len >= disk.blockSize {
        blockIndex := None;
      }
      position := position + len;
      return Count(len);
    }

    /** `read_bytes` into the part of `buf` that starts at `from`. */
    method ReadBytes(buf: array<byte>, from: nat, fault: Option<Error>) returns (r: Outcome)
      requires disk.Valid() && from <= buf.Length
      modifies this, buf
      ensures Now() == ReadStep(disk, inode, old(Now()), buf.Length - from, fault).1
      ensures Delivered(ReadStep(disk, inode, old(Now()), buf.Length - from, fault).0, r,
                        old(buf[..]), from, buf[..])
    {
      var len := buf.Length - from;
      if len == 0 {
        return Count(0);
      }
      if position >= inode.size {
        return Count(0);
      }
      if len > inode.size - position {
        len := inode.size - position;
      }
      var block := CurrentBlock();
      if block.None? {
        return Panic;
      }
      if block.value.Err? {
        return Failure(block.value.error);
      }
      r := CopyFromBlock(block.value.value, len, buf, from, fault);
    }

    /** `seek_to`, with a new block iterator. */
    method SeekTo(position: nat)
      requires disk.blockSize > 0
      modifies this
      ensures Now() == SeekStep(disk, blocks, position)
    {
      fileBlocks := blocks;
      blockIndex := None;
      QuotientIs(position, disk.blockSize);
      var numBlocks := position / disk.blockSize;
      for i := 0 to numBlocks
        invariant blockIndex == None && fileBlocks == blocks.Skip(i)
      {
        ghost var before := fileBlocks;
        var skipped := NextBlock();
        SkipOne(before, skipped, fileBlocks);
        SkipMore(blocks, i);
      }
      this.position := position;
    }
  }
}
