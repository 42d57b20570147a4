// The block cache (src/block_cache.rs): a deque of fixed length, most recently
// used blocks first, that reads a group of blocks on every miss.

module BlockCache {
  import opened Basics

  datatype Entry = Entry(index: nat, data: Bytes)

  /** What a call of the read callback does: it fills the buffer it is given,
      perhaps with garbage, and reports success or an error. */
  datatype Fill = Fill(bytes: Bytes, error: Option<Error>)

  /** The callback, given the number of bytes to read. */
  type ReadFn = nat -> Fill

  ghost predicate FillsBuffer(f: ReadFn) {
    forall n :: |f(n).bytes| == n
  }

  /** The state of a cache. */
  datatype Cache = Cache(entries: seq<Entry>, maxBlocksPerRead: nat, blockSize: nat, numFsBlocks: nat)
  {
    predicate WellFormed() {
      && 0 < maxBlocksPerRead <= |entries|
      && 0 < blockSize
      && forall i :: 0 <= i < |entries| ==> |entries[i].data| == blockSize
    }

    /** `num_blocks_to_read`: a full group, unless the filesystem ends first. */
    function NumBlocksToRead(block: nat): (n: nat)
      requires block < numFsBlocks
      ensures n <= maxBlocksPerRead && block + n <= numFsBlocks
      ensures 0 < maxBlocksPerRead ==> 0 < n
      ensures n < maxBlocksPerRead ==> block + n == numFsBlocks
    {
      Min(block + maxBlocksPerRead, numFsBlocks) - block
    }
  }

  /** First position of a block in the deque. */
  function Position(entries: seq<Entry>, block: nat): (r: Option<nat>)
    ensures r.Some? ==> r.value < |entries| && entries[r.value].index == block
    ensures r.Some? ==> forall i :: 0 <= i < r.value ==> entries[i].index != block
    ensures r.None? ==> forall i :: 0 <= i < |entries| ==> entries[i].index != block
  {
    if entries == [] then None
    else if entries[0].index == block then Some(0)
    else
      var r := Position(entries[1..], block);
      if r.None? then None else Some(r.value + 1)
  }

  /** Move an entry to the front. */
  function Promote(entries: seq<Entry>, i: nat): (r: seq<Entry>)
    requires i < |entries|
    ensures |r| == |entries|
  {
    [entries[i]] + entries[..i] + entries[i + 1..]
  }

  /** Block `i` of a buffer. */
  function BlockOf(buffer: Bytes, blockSize: nat, i: nat): (r: Bytes)
    requires (i + 1) * blockSize <= |buffer|
    ensures |r| == blockSize
  {
    assert i * blockSize + blockSize == (i + 1) * blockSize;
    buffer[i * blockSize..i * blockSize + blockSize]
  }

  lemma GroupFits(i: nat, n: nat, blockSize: nat)
    requires i < n
    ensures (i + 1) * blockSize <= n * blockSize
  {
  }

  /** The entries for a group of `n` blocks that starts at `block`. */
  function Group(block: nat, buffer: Bytes, blockSize: nat, n: nat): (r: seq<Entry>)
    requires n * blockSize <= |buffer|
    ensures |r| == n
    ensures forall i :: 0 <= i < n ==>
              && (i + 1) * blockSize <= |buffer|
              && r[i] == Entry(block + i, BlockOf(buffer, blockSize, i))
    decreases n
  {
    if n == 0 then []
    else
      GroupFits(n - 1, n, blockSize);
      assert (n - 1 + 1) * blockSize == n * blockSize;
      Group(block, buffer, blockSize, n - 1) + [Entry(block + (n - 1), BlockOf(buffer, blockSize, n - 1))]
  }

  /** The outcome of a request: the new state, the block or an error, and
      whether the callback was called. */
  datatype Outcome = Outcome(cache: Cache, result: Result<Bytes>, called: bool)

  /** `get_or_insert_blocks`. */
  function Get(c: Cache, block: nat, f: ReadFn): (r: Outcome)
    requires c.WellFormed() && block < c.numFsBlocks && FillsBuffer(f)
  {
    match Position(c.entries, block)
    case Some(i) => Outcome(c.(entries := Promote(c.entries, i)), Ok(c.entries[i].data), false)
    case None =>
      var n := c.NumBlocksToRead(block);
      var fill := f(n * c.blockSize);
      match fill.error
      case Some(e) => Outcome(c, Err(e), true)
      case None =>
        var group := Group(block, fill.bytes, c.blockSize, n);
        Outcome(c.(entries := group + c.entries[..|c.entries| - n]), Ok(group[0].data), true)
  }

  /** Every request keeps the shape of the cache, in particular its length. */
  lemma GetKeepsShape(c: Cache, block: nat, f: ReadFn)
    requires c.WellFormed() && block < c.numFsBlocks && FillsBuffer(f)
    ensures var d := Get(c, block, f).cache;
            && d.WellFormed() && |d.entries| == |c.entries|
            && d == c.(entries := d.entries)
  {
  }

  // ----- the deque itself

  class BlockCache {
    var entries: seq<Entry>
    const readBuf: array<byte>
    const maxBlocksPerRead: nat
    const blockSize: nat
    const numFsBlocks: nat

    ghost predicate Valid()
      reads this
    {
      Value().WellFormed() && readBuf.Length == maxBlocksPerRead * blockSize
    }

    function Value(): Cache
      reads this
    {
      Cache(entries, maxBlocksPerRead, blockSize, numFsBlocks)
    }

    /** `with_opts`: all entries are placeholders for block 0 with zero bytes. */
    constructor (blockSize: nat, maxBlocksPerRead: nat, numEntries: nat, numFsBlocks: nat)
      requires 0 < blockSize && 0 < maxBlocksPerRead <= numEntries
      ensures Valid() && fresh(readBuf)
      ensures Value() == Fresh(blockSize, maxBlocksPerRead, numEntries, numFsBlocks)
    {
      entries := seq(numEntries, _ => Entry(0, seq(blockSize, _ => 0)));
      readBuf := new byte[maxBlocksPerRead * blockSize](_ => 0);
      this.maxBlocksPerRead := maxBlocksPerRead;
      this.blockSize := blockSize;
      this.numFsBlocks := numFsBlocks;
    }

    /** `insert_block`: reuse the entry at the back for a block of the buffer
        and move it to the front. */
    method InsertBlock(blockIndex: nat, blockWithinReadBuf: nat)
      requires Valid() && blockWithinReadBuf < maxBlocksPerRead
      modifies this`entries
      ensures Valid()
      ensures (blockWithinReadBuf + 1) * blockSize <= readBuf.Length
      ensures entries ==
              [Entry(blockIndex, BlockOf(readBuf[..], blockSize, blockWithinReadBuf))]
              + old(entries)[..|old(entries)| - 1]
    {
      GroupFits(blockWithinReadBuf, maxBlocksPerRead, blockSize);
      var start := blockWithinReadBuf * blockSize;
      var end := start + blockSize;
      assert end == (blockWithinReadBuf + 1) * blockSize;
      var src := readBuf[start..end];
      assert src == readBuf[..][start..end];
      entries := entries[..|entries| - 1];
      entries := [Entry(blockIndex, src)] + entries;
    }

    /** `get_or_insert_blocks`. */
    method GetOrInsertBlocks(blockIndex: nat, f: ReadFn) returns (r: Result<Bytes>)
      requires Valid() && blockIndex < numFsBlocks && FillsBuffer(f)
      modifies this`entries, readBuf
      ensures Valid()
      ensures Value() == old(Get(Value(), blockIndex, f)).cache
      ensures r == old(Get(Value(), blockIndex, f)).result
    {
      var index := Position(entries, blockIndex);
      if index.Some? {
        if index.value != 0 {
          entries := Promote(entries, index.value);
        } else {
          assert Promote(entries, 0) == entries;
        }
        return Ok(entries[0].data);
      }
      var c := Value();
      var numBlocks := c.NumBlocksToRead(blockIndex);
      var numBytes := numBlocks * blockSize;
      BufferFits(numBlocks, maxBlocksPerRead, blockSize);
      var fill := f(numBytes);
      forall i | 0 <= i < numBytes {
        readBuf[i] := fill.bytes[i];
      }
      if fill.error.Some? {
        return Err(fill.error.value);
      }
      InsertGroup(blockIndex, numBlocks, fill.bytes);
      r := Ok(entries[0].data);
    }

    /** Insert the blocks of the buffer in reverse order, so that the requested
        block ends up at the very front. */
    method InsertGroup(blockIndex: nat, numBlocks: nat, ghost bytes: Bytes)
      requires Valid() && 0 < numBlocks <= maxBlocksPerRead
      requires |bytes| == numBlocks * blockSize <= readBuf.Length && readBuf[..|bytes|] == bytes
      modifies this`entries
      ensures Valid()
      ensures entries ==
              Group(blockIndex, bytes, blockSize, numBlocks) + old(entries)[..|old(entries)| - numBlocks]
    {
      ghost var group := Group(blockIndex, bytes, blockSize, numBlocks);
      var i := numBlocks;
      while i > 0
        invariant Valid() && i <= numBlocks && |entries| == |old(entries)|
        invariant entries == group[i..] + old(entries)[..|old(entries)| - (numBlocks - i)]
      {
        i := i - 1;
        GroupFits(i, numBlocks, blockSize);
        BlockOfPrefix(readBuf[..], bytes, blockSize, i);
        ghost var before := entries;
        InsertBlock(blockIndex + i, i);
        PushFront(group, old(entries), before, i);
      }
    }
  }

  lemma BufferFits(n: nat, max: nat, blockSize: nat)
    requires n <= max
    ensures n * blockSize <= max * blockSize
  {
  }

  lemma BlockEnd(i: nat, blockSize: nat)
    ensures i * blockSize + blockSize == (i + 1) * blockSize
  {
  }

  lemma BlockOfPrefix(buffer: Bytes, bytes: Bytes, blockSize: nat, i: nat)
    requires (i + 1) * blockSize <= |bytes| <= |buffer| && buffer[..|bytes|] == bytes
    ensures BlockOf(buffer, blockSize, i) == BlockOf(bytes, blockSize, i)
  {
    var start := i * blockSize;
    BlockEnd(i, blockSize);
    SliceOfPrefix(buffer, |bytes|, start, start + blockSize);
  }

  lemma PushFront(group: seq<Entry>, old0: seq<Entry>, before: seq<Entry>, i: nat)
    requires i < |group| <= |old0|
    requires before == group[i + 1..] + old0[..|old0| - (|group| - (i + 1))]
    ensures [group[i]] + before[..|before| - 1] == group[i..] + old0[..|old0| - (|group| - i)]
  {
  }

  function Fresh(blockSize: nat, maxBlocksPerRead: nat, numEntries: nat, numFsBlocks: nat): Cache {
    Cache(seq(numEntries, _ => Entry(0, seq(blockSize, _ => 0))), maxBlocksPerRead, blockSize, numFsBlocks)
  }
}
