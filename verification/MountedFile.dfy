// A file on a mounted filesystem: the block iterators, the cursor, the journal's
// block map and the device put together.

module MountedFile {
  import opened Basics
  import opened Arithmetic
  import BlockCache
  import BlockRead
  import CacheProps
  import JournalSpec
  import opened FileMap
  import opened FileProps
  import opened FileSession

  /** What the superblock and the device say. */
  datatype Volume = Volume(
    device: Bytes,
    blockSize: nat,
    blocksCount: nat,
    hasChecksums: bool,
    checksumOk: (Bytes, nat) -> bool)
  {
    /** The block is on the device. */
    predicate Has(block: nat) {
      (block + 1) * blockSize <= |device|
    }
  }

  function ContentOf(v: Volume, block: nat): Bytes {
    if v.Has(block) then BlockCache.BlockOf(v.device, v.blockSize, block) else ZeroBytes(v.blockSize)
  }

  /** The filesystem with the block map of its journal installed. */
  function Mount(v: Volume, journal: JournalSpec.JournalMap): Disk {
    Disk(b => ContentOf(v, BlockRead.MapBlock(journal, b)),
         (b, offset, n) => BlockRead.DirectRead(v.device, v.blockSize, v.blocksCount, journal, b, offset, n),
         v.blockSize, v.hasChecksums, v.checksumOk)
  }

  lemma BlockLength(v: Volume, block: nat)
    ensures |ContentOf(v, block)| == v.blockSize
  {
  }

  lemma MountIsValid(v: Volume, journal: JournalSpec.JournalMap)
    requires v.blockSize > 0
    ensures Mount(v, journal).Valid()
  {
    var disk := Mount(v, journal);
    forall b ensures |disk.content(b)| == v.blockSize {
      BlockLength(v, BlockRead.MapBlock(journal, b));
    }
  }

  /** A read through the block cache that succeeds gives what the mounted filesystem
      has, unless the block maps to block 0, which the cache may hold as zeros. */
  lemma CacheReadsMount(c: BlockCache.Cache, v: Volume, journal: JournalSpec.JournalMap, block: nat, offset: nat,
                        len: nat, up: bool)
    requires c.WellFormed() && CacheProps.Faithful(c, v.device)
    requires c.blockSize == v.blockSize && c.numFsBlocks == v.blocksCount
    requires !BlockRead.StandsFor(journal, block, 0)
    ensures var r := BlockRead.CachedRead(c, v.device, journal, block, offset, len, up);
            && (r.result.Ok? ==> r.result == Mount(v, journal).read(block, offset, len))
            && r.cache.WellFormed() && CacheProps.Faithful(r.cache, v.device)
  {
    BlockRead.CachedReadIsDirect(c, v.device, journal, block, offset, len, up);
  }

  /** A byte of a block of the device. */
  function DeviceByte(v: Volume, block: nat, offset: nat): byte
    requires v.Has(block) && offset < v.blockSize
  {
    assert (block + 1) * v.blockSize == block * v.blockSize + v.blockSize;
    v.device[block * v.blockSize + offset]
  }

  lemma ByteOfBlock(v: Volume, block: nat, offset: nat)
    requires v.Has(block) && offset < v.blockSize
    ensures |ContentOf(v, block)| == v.blockSize && ContentOf(v, block)[offset] == DeviceByte(v, block, offset)
  {
    assert (block + 1) * v.blockSize == block * v.blockSize + v.blockSize;
  }

  lemma ByteOfFlat(disk: Disk, inode: Inode, blocks: Stream<nat>, i: nat)
    requires disk.Valid() && Complete(disk, inode, blocks) && i < inode.size
    ensures Quotient(i, disk.blockSize) < |blocks.items|
    ensures Contents(disk, inode, blocks)[i] ==
            BlockBytes(disk, blocks.items[Quotient(i, disk.blockSize)])[Remainder(i, disk.blockSize)]
  {
    QuotientBelow(i, |blocks.items|, disk.blockSize);
    FlatLength(disk, blocks.items);
    FlatSlice(disk, blocks.items, i, 1);
    assert Flat(disk, blocks.items)[i] == Flat(disk, blocks.items)[i..i + 1][0];
  }

  /** A byte of a file: zero in a hole; otherwise the device's byte in the block that
      the file's block map leads to, or in the journal's copy of that block. */
  lemma ByteOfFile(v: Volume, journal: JournalSpec.JournalMap, inode: Inode, blocks: Stream<nat>, i: nat)
    requires v.blockSize > 0 && Complete(Mount(v, journal), inode, blocks) && i < inode.size
    ensures Mount(v, journal).Valid() && Quotient(i, v.blockSize) < |blocks.items|
    ensures var block := blocks.items[Quotient(i, v.blockSize)];
            var mapped := if block in journal then journal[block] else block;
            var here := Contents(Mount(v, journal), inode, blocks)[i];
            && (block == 0 ==> here == 0)
            && (block != 0 && v.Has(mapped) ==> here == DeviceByte(v, mapped, Remainder(i, v.blockSize)))
  {
    MountIsValid(v, journal);
    ByteOfFlat(Mount(v, journal), inode, blocks, i);
    var mapped := BlockRead.MapBlock(journal, blocks.items[Quotient(i, v.blockSize)]);
    if v.Has(mapped) {
      ByteOfBlock(v, mapped, Remainder(i, v.blockSize));
    }
  }
}
